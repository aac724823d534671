/**
 Creating, removing and renaming in an encrypted volume, one system call at a time (file.go,
 directory.go, common_ops.go, longnames.go). Every state between two calls is recorded.
 */
module DirOps {
  import opened Bytes
  import opened Names
  import opened DirImage
  import opened DirTree
  import opened Tidy

  datatype Errno = OK | EEXIST | ENOENT | ENOTEMPTY | EISDIR | ENOTDIR | EINVAL | EIO

  ghost predicate AllSafe(n: NameTransform, dirs: Dirs) {
    forall d | d in dirs :: DirSafe(n, dirs[d])
  }

  ghost predicate AllRepresent(n: NameTransform, dirs: Dirs, plain: Dirs) {
    dirs.Keys == plain.Keys && forall d | d in dirs :: Represents(n, dirs[d], plain[d])
  }

  ghost predicate SafeTrace(n: NameTransform, trace: seq<Dirs>) {
    forall i | 0 <= i < |trace| :: AllSafe(n, trace[i])
  }

  lemma SafeAppend(n: NameTransform, trace: seq<Dirs>, dirs: Dirs)
    requires SafeTrace(n, trace) && AllSafe(n, dirs)
    ensures SafeTrace(n, trace + [dirs])
  {
    hide AllSafe;
  }

  /** No name file of another time is in the way of a new entry for p. */
  predicate NameFree(n: NameTransform, e: Dir, p: bytes)
    requires IsValidName(p)
  {
    IsLongContent(EntryName(n, p, Iv(e))) ==> NameFile(EntryName(n, p, Iv(e))) !in e
  }

  predicate FileAt(dirs: Dirs, d: nat, c: bytes) { d in dirs && c in dirs[d] && dirs[d][c].FileNode? }

  // ---------- what can be done to plain directories ----------

  /** A file can be opened for writing if it is new, or is there and has no name file. */
  predicate CanCreate(n: NameTransform, plain: Dirs, d: nat, p: bytes)
    requires d in plain
  {
    IsValidName(p) && (p in plain[d] ==> plain[d][p].FileNode? && !IsHashed(n, p))
  }

  predicate CanMake(plain: Dirs, d: nat, p: bytes)
    requires d in plain
  {
    IsValidName(p) && p !in plain[d]
  }

  /** Where nothing is in the way, any name can be made that has 1 to 255 bytes, no NUL, no slash, and is no dots. */
  lemma FreeNames(n: NameTransform, plain: Dirs, d: nat, p: bytes)
    requires d in plain && p !in plain[d]
    ensures CanCreate(n, plain, d, p) <==>
      && 1 <= |p| <= 255 && (forall c | c in p :: c != 0 && c != 47) && (|p| <= 2 ==> exists c :: c in p && c != 46)
    ensures CanMake(plain, d, p) <==> CanCreate(n, plain, d, p)
  {
    hide IsValidName;
    ValidNames(p);
  }

  /** A file can take the place of a file; a directory that of an empty one, but not below itself. */
  predicate CanRename(plain: Dirs, d1: nat, p1: bytes, d2: nat, p2: bytes)
    requires d1 in plain && d2 in plain
  {
    && p1 in plain[d1] && IsValidName(p2)
    && ((d1, p1) == (d2, p2)
        || match plain[d1][p1]
           case FileNode(_) => p2 in plain[d2] ==> FileAt(plain, d2, p2)
           case DirNode(id) => d2 !in Reach(plain, {id}) && (p2 in plain[d2] ==> IsEmptyDir(plain, d2, p2)))
  }

  /** Directories that stay keep their IV. */
  ghost predicate IvsKept(a: Dirs, b: Dirs) { forall k | k in a && k in b :: Iv(b[k]) == Iv(a[k]) }

  /** No directory is new, and those that stay keep their IV. */
  ghost predicate IvsLess(a: Dirs, b: Dirs) { forall k | k in b :: k in a && Iv(b[k]) == Iv(a[k]) }

  /** Only directory d changes, and its IV and temporary names do not; others may be new. */
  ghost predicate Framed(a: Dirs, b: Dirs, d: nat) {
    && d in a && d in b && Iv(b[d]) == Iv(a[d])
    && (forall k | k in a && k != d :: k in b && b[k] == a[k])
    && (forall x | IsTemp(x) :: x in b[d] <==> x in a[d])
  }

  class Volume {
    const n: NameTransform
    /** Whether the operating system may refuse a call for no reason visible here. */
    const faulty: bool
    var dirs: Dirs
    var nextId: nat
    /** The states left by each system call so far. */
    ghost var trace: seq<Dirs>
    /** The plain directories the volume stands for. */
    ghost var plain: Dirs

    constructor (n: NameTransform, faulty: bool, iv: bytes, conf: bytes)
      requires |iv| == 16 && iv != Zeros(16)
      ensures Valid() && AllTidy(dirs) && this.n == n && this.faulty == faulty && plain == map[0 := map[]]
      ensures dirs == map[0 := map[DIR_IV_FILENAME := FileNode(iv), CONF_NAME := FileNode(conf)]]
    {
      this.n, this.faulty := n, faulty;
      dirs, nextId := map[0 := map[DIR_IV_FILENAME := FileNode(iv), CONF_NAME := FileNode(conf)]], 1;
      trace, plain := [], map[0 := map[]];
      new;
      OwnKinds(DIR_IV_FILENAME);
    }

    /** No failures, now or before. */
    ghost predicate Quiet()
      reads this
    {
      !faulty && AllTidy(dirs)
    }

    ghost predicate Valid()
      reads this
    {
      && AllRepresent(n, dirs, plain)
      && 0 < nextId && (forall d | d in dirs :: d < nextId)
      && TraceSafe()
    }

    /** No state so far had a long-named entry without its name. */
    ghost predicate TraceSafe()
      reads this
    {
      SafeTrace(n, trace)
    }

    // ---------- system calls: each succeeds or leaves everything as it was ----------

    method Fault(sure: bool) returns (fail: bool)
      ensures sure || !faulty ==> !fail
    {
      var r: bool := *;
      fail := r && faulty && !sure;
    }

    method CreateExcl(d: nat, c: bytes, sure: bool) returns (e: Errno)
      requires d in dirs
      modifies this`dirs, this`trace
      ensures dirs == (if e == OK then old(dirs)[d := old(dirs)[d][c := FileNode([])]] else old(dirs))
      ensures trace == old(trace) + [dirs]
      ensures if c in old(dirs)[d] then e == EEXIST else e == OK || (e == EIO && faulty)
    {
      var fail := Fault(sure);
      if c in dirs[d] {
        e := EEXIST;
      } else if fail {
        e := EIO;
      } else {
        e, dirs := OK, dirs[d := dirs[d][c := FileNode([])]];
      }
      trace := trace + [dirs];
    }

    /** open with O_CREAT but not O_EXCL, for reading and writing. */
    method OpenCreat(d: nat, c: bytes) returns (e: Errno)
      requires d in dirs
      modifies this`dirs, this`trace
      ensures dirs
          == (if e == OK && c !in old(dirs)[d] then old(dirs)[d := old(dirs)[d][c := FileNode([])]] else old(dirs))
      ensures trace == old(trace) + [dirs]
      ensures e == OK || (e == EISDIR && c in dirs[d] && dirs[d][c].DirNode?) || (e == EIO && faulty)
      ensures c in old(dirs)[d] && old(dirs)[d][c].DirNode? ==> e != OK
    {
      var fail := Fault(false);
      if fail {
        e := EIO;
      } else if c in dirs[d] {
        e := if dirs[d][c].DirNode? then EISDIR else OK;
      } else {
        e, dirs := OK, dirs[d := dirs[d][c := FileNode([])]];
      }
      trace := trace + [dirs];
    }

    method WriteData(d: nat, c: bytes, data: bytes) returns (e: Errno)
      requires d in dirs && c in dirs[d] && dirs[d][c].FileNode?
      modifies this`dirs, this`trace
      ensures dirs == (if e == OK then old(dirs)[d := old(dirs)[d][c := FileNode(data)]] else old(dirs))
      ensures trace == old(trace) + [dirs]
      ensures e == OK || (e == EIO && faulty)
    {
      var fail := Fault(false);
      if fail {
        e := EIO;
      } else {
        e, dirs := OK, dirs[d := dirs[d][c := FileNode(data)]];
      }
      trace := trace + [dirs];
    }

    method Unlink(d: nat, c: bytes, sure: bool) returns (e: Errno)
      requires d in dirs
      modifies this`dirs, this`trace
      ensures dirs == (if e == OK then old(dirs)[d := old(dirs)[d] - {c}] else old(dirs))
      ensures trace == old(trace) + [dirs]
      ensures if c !in old(dirs)[d] then e == ENOENT else if old(dirs)[d][c].DirNode? then e == EISDIR
              else e == OK || (e == EIO && faulty && !sure)
    {
      var fail := Fault(sure);
      if c !in dirs[d] {
        e := ENOENT;
      } else if dirs[d][c].DirNode? {
        e := EISDIR;
      } else if fail {
        e := EIO;
      } else {
        e, dirs := OK, dirs[d := dirs[d] - {c}];
      }
      trace := trace + [dirs];
    }

    method Mkdir(d: nat, c: bytes) returns (e: Errno)
      requires d in dirs && forall k | k in dirs :: k < nextId
      modifies this`dirs, this`trace, this`nextId
      ensures e == OK ==>
        && dirs == old(dirs)[d := old(dirs)[d][c := DirNode(old(nextId))]][old(nextId) := map[]]
        && nextId == old(nextId) + 1
      ensures e != OK ==> dirs == old(dirs) && nextId == old(nextId)
      ensures trace == old(trace) + [dirs]
      ensures if c in old(dirs)[d] then e == EEXIST else e == OK || (e == EIO && faulty)
    {
      var fail := Fault(false);
      if c in dirs[d] {
        e := EEXIST;
      } else if fail {
        e := EIO;
      } else {
        e, dirs, nextId := OK, dirs[d := dirs[d][c := DirNode(nextId)]][nextId := map[]], nextId + 1;
      }
      trace := trace + [dirs];
    }

    /** unlinkat with AT_REMOVEDIR. */
    method Rmdir(d: nat, c: bytes, sure: bool) returns (e: Errno)
      requires d in dirs
      modifies this`dirs, this`trace
      ensures e == OK ==>
        EmptyDirAt(old(dirs), d, c) && dirs == old(dirs)[d := old(dirs)[d] - {c}] - {old(dirs)[d][c].id}
      ensures e != OK ==> dirs == old(dirs)
      ensures trace == old(trace) + [dirs]
      ensures (sure || !faulty) && EmptyDirAt(old(dirs), d, c) ==> e == OK
    {
      var fail := Fault(sure);
      if c !in dirs[d] {
        e := ENOENT;
      } else if dirs[d][c].FileNode? {
        e := ENOTDIR;
      } else if dirs[d][c].id !in dirs {
        e := ENOENT;
      } else if dirs[dirs[d][c].id] != map[] {
        e := ENOTEMPTY;
      } else if fail {
        e := EIO;
      } else {
        var id := dirs[d][c].id;
        e, dirs := OK, dirs[d := dirs[d] - {c}] - {id};
      }
      trace := trace + [dirs];
    }

    method Renameat(d1: nat, c1: bytes, d2: nat, c2: bytes, sure: bool) returns (e: Errno)
      requires d1 in dirs && d2 in dirs
      modifies this`dirs, this`trace
      ensures e == RenameErrno(old(dirs), d1, c1, d2, c2) || (e == EIO && faulty && !sure)
      ensures e == OK ==> c1 in old(dirs)[d1]
      ensures dirs == if e == OK then Moved(old(dirs), d1, c1, d2, c2) else old(dirs)
      ensures trace == old(trace) + [dirs]
    {
      var fail := Fault(sure);
      e := if fail then EIO else RenameErrno(dirs, d1, c1, d2, c2);
      if e == OK {
        dirs := Moved(dirs, d1, c1, d2, c2);
      }
      trace := trace + [dirs];
    }

    // ---------- long names ----------

    /** The entry for a name in directory d, or nothing if the name or the directory IV is no good. */
    function Resolve(d: nat, p: bytes): NameResult
      requires d in dirs
      reads this
    {
      if HasIv(dirs[d]) then EncryptAndHashName(n, p, Iv(dirs[d])) else EBADMSG
    }

    /** Write the encrypted name into the name file of h, which must not be there yet. */
    method WriteLongNameAt(d: nat, h: bytes, p: bytes) returns (e: Errno)
      requires Valid() && d in dirs && IsValidName(p) && h == EntryName(n, p, Iv(dirs[d])) && IsLongContent(h)
      modifies this`dirs, this`trace
      ensures old(trace) <= trace
      ensures Valid()
      ensures e == OK ==> h !in old(dirs)[d] && NameFile(h) !in old(dirs)[d]
      ensures e == OK ==>
        dirs == old(dirs)[d := old(dirs)[d][NameFile(h) := FileNode(EncryptRaw(n, p, Iv(old(dirs)[d])))]]
      ensures e != OK ==> dirs == old(dirs)
      ensures if NameFile(h) in old(dirs)[d] then e == EEXIST else e == OK || (e == EIO && faulty)
    {
      hide NameType, EntryName, HashLongName, GoodNameFile, Represents, DirSafe, IsTemp, IsValidName, EncryptRaw,
           AllRepresent, AllSafe, SafeTrace, NameFile, IsLongContent, HasIv, Iv;
      ghost var dirs0, e0, t := dirs, dirs[d], trace;
      AllRepresentIsSafe(n, dirs, plain);
      Both(n, dirs, plain, d);
      NameFileFresh(n, e0, plain[d], p);
      EncryptOfValid(n, p, Iv(dirs[d]));
      var iv := Iv(dirs[d]);
      var cName := EncryptName(n, p, iv);
      e := CreateExcl(d, NameFile(h), false);
      if e != OK {
        SafeAppend(n, t, dirs);
        return;
      }
      NameFilePut(n, dirs0, plain, d, p, FileNode([]));
      SafeAppend(n, t, dirs);
      t := trace;
      e := WriteData(d, NameFile(h), cName.value);
      NameFilePut(n, dirs0, plain, d, p, FileNode(cName.value));
      UndoPut(dirs0, d, NameFile(h), FileNode([]), FileNode(cName.value));
      SafeAppend(n, t, dirs);
      if e != OK {
        t := trace;
        var e' := Unlink(d, NameFile(h), true);
        SafeAppend(n, t, dirs);
      }
    }

    method DeleteLongNameAt(d: nat, h: bytes) returns (e: Errno)
      requires d in dirs
      modifies this`dirs, this`trace
      ensures old(trace) <= trace
      ensures old(Valid()) && IsLongContent(h) && h !in old(dirs)[d] ==> Valid()
      ensures dirs == (if e == OK then old(dirs)[d := old(dirs)[d] - {NameFile(h)}] else old(dirs))
      ensures !faulty && NameFile(h) in old(dirs)[d] && old(dirs)[d][NameFile(h)].FileNode? ==> e == OK
    {
      hide NameType, HashLongName, GoodNameFile, Represents, DirSafe, IsTemp, IsValidName, NameFile;
      if Valid() && IsLongContent(h) && h !in dirs[d] {
        AllRepresentIsSafe(n, dirs, plain);
        NameFileDrop(n, dirs, plain, d, h);
      }
      e := Unlink(d, NameFile(h), false);
    }

    // ---------- operations on one directory ----------

    /** gcf_open_write_mode: open or create. A long name that exists already is refused. */
    method OpenWrite(d: nat, p: bytes) returns (ok: bool)
      requires Valid() && d in dirs
      modifies this`dirs, this`trace, this`plain
      ensures old(trace) <= trace
      ensures Valid()
      ensures !ok ==> plain == old(plain)
      ensures ok ==> CanCreate(n, old(plain), d, p) && plain == WithFile(old(plain), d, p) && plain[d][p].FileNode?
      ensures IsValidName(p) && p in old(plain)[d] && IsLongContent(EntryName(n, p, Iv(old(dirs)[d]))) ==> !ok
      ensures !faulty && IsValidName(p) && p in old(plain)[d] && !IsLongContent(EntryName(n, p, Iv(old(dirs)[d]))) ==>
        ok == old(plain)[d][p].FileNode?
      ensures !faulty && IsValidName(p) && p !in old(plain)[d] && NameFree(n, old(dirs)[d], p) ==> ok
      ensures Framed(old(dirs), dirs, d)
      ensures old(Quiet()) ==> Quiet() && (ok <==> CanCreate(n, old(plain), d, p))
      ensures old(Quiet()) && p !in old(plain)[d] ==>
        (ok <==>
          && 1 <= |p| <= 255 && (forall c | c in p :: c != 0 && c != 47)
          && (|p| <= 2 ==> exists c :: c in p && c != 46))
    {
      hide NameType, HashLongName, GoodNameFile, Represents, DirSafe, IsTemp, IsValidName, NameFile, EncryptRaw,
           AllRepresent, AllSafe, AllTidy, AllTidyBut, IsHashed, SafeTrace, IsLongContent, Iv, HasIv, Framed,
           EntryName, EncryptAndHashName, InUse, Pending;
      ghost var quiet, dirs0 := Quiet(), dirs;
      FramedSame(dirs, d);
      Both(n, dirs, plain, d);
      if p !in plain[d] { FreeNames(n, plain, d, p); }
      RepresentsHasIv(n, dirs[d], plain[d]);
      var r := Resolve(d, p);
      NameOKIsValid(n, p, Iv(dirs[d]));
      if !r.NameOK? {
        return false;
      }
      var c := r.cName;
      EntryLookup(n, dirs[d], plain[d], p);
      EntryIsNotOwn(n, p, Iv(dirs[d]));
      HashedByLength(n, p, Iv(dirs[d]));
      var e;
      if IsLongContent(c) {
        NameFileIsOwn(c);
        EntryNameFile(n, dirs[d], plain[d], p);
        if quiet && NameFile(c) in dirs[d] { TidyNameHasEntry(dirs, d, c); }
        e := WriteLongNameAt(d, c, p);
        if e != OK {
          return false;
        }
        IvOther(dirs0[d], NameFile(c), dirs[d][NameFile(c)]);
        FramedPut(dirs0, dirs0, d, NameFile(c), dirs[d][NameFile(c)]);
        Both(n, dirs, plain, d);
        EntryNameFile(n, dirs[d], plain[d], p);
        EntryLookup(n, dirs[d], plain[d], p);
      }
      ghost var dirs1 := dirs;
      ok := OpenEntry(d, p, c);
      if !ok {
        if IsLongContent(c) {
          FramedDrop(dirs0, dirs, d, NameFile(c));
          var _ := DeleteLongNameAt(d, c);
        }
        return false;
      }
      FramedPut(dirs0, dirs1, d, c, FileNode([]));
      if quiet && c !in dirs1[d] { TidyCreate(n, dirs0, d, p, FileNode([])); }
    }

    /** The open itself, with the name file of a long name in place. */
    method OpenEntry(d: nat, p: bytes, c: bytes) returns (ok: bool)
      requires Valid() && d in dirs && IsValidName(p) && c == EntryName(n, p, Iv(dirs[d]))
      requires IsLongContent(c) ==> GoodNameFile(n, dirs[d], c)
      modifies this`dirs, this`trace, this`plain
      ensures old(trace) <= trace
      ensures Valid()
      ensures dirs == if ok && c !in old(dirs)[d] then old(dirs)[d := old(dirs)[d][c := FileNode([])]] else old(dirs)
      ensures plain == if ok then WithFile(old(plain), d, p) else old(plain)
      ensures ok ==> p in plain[d] && plain[d][p].FileNode? && (p in old(plain)[d] ==> old(plain)[d][p].FileNode?)
      ensures !faulty ==> (ok <==> p !in old(plain)[d] || old(plain)[d][p].FileNode?)
    {
      hide NameType, HashLongName, GoodNameFile, Represents, DirSafe, IsTemp, IsValidName, NameFile, EncryptRaw,
           AllRepresent, AllSafe, SafeTrace, IsLongContent, Iv, HasIv, EntryName, EncryptAndHashName;
      ghost var t, dirs1 := trace, dirs;
      Both(n, dirs, plain, d);
      EntryLookup(n, dirs[d], plain[d], p);
      AllRepresentIsSafe(n, dirs, plain);
      EntryPut(n, dirs, plain, d, p, FileNode([]));
      var e := OpenCreat(d, c);
      SafeAppend(n, t, dirs);
      ok := e == OK;
      if ok && c !in dirs1[d] {
        plain := plain[d := plain[d][p := FileNode([])]];
      }
    }

    /** gcf_remove_file: the entry first, then its name file. */
    method RemoveFile(d: nat, p: bytes) returns (ok: bool)
      requires Valid() && d in dirs
      modifies this`dirs, this`trace, this`plain
      ensures old(trace) <= trace
      ensures Valid()
      ensures ok ==> p in old(plain)[d] && old(plain)[d][p].FileNode? && plain == old(plain)[d := old(plain)[d] - {p}]
      ensures !ok ==>
        plain == old(plain) || (faulty && FileAt(old(plain), d, p) && plain == old(plain)[d := old(plain)[d] - {p}])
      ensures !faulty && p in old(plain)[d] && old(plain)[d][p].FileNode? ==> ok
      ensures old(Quiet()) ==> Quiet()
      ensures Framed(old(dirs), dirs, d)
    {
      hide NameType, HashLongName, GoodNameFile, Represents, DirSafe, IsTemp, IsValidName, NameFile, EncryptRaw,
           AllRepresent, AllSafe, AllTidy, AllTidyBut, SafeTrace, Framed;
      ghost var quiet, dirs0 := Quiet(), dirs;
      FramedSame(dirs, d);
      Both(n, dirs, plain, d);
      RepresentsHasIv(n, dirs[d], plain[d]);
      PlainNamesValid(n, dirs[d], plain[d]);
      var r := Resolve(d, p);
      NameOKIsValid(n, p, Iv(dirs[d]));
      if !r.NameOK? {
        return false;
      }
      var c := r.cName;
      EntryLookup(n, dirs[d], plain[d], p);
      EntryIsNotOwn(n, p, Iv(dirs[d]));
      if IsLongContent(c) {
        EntryNameFileIsFile(n, dirs[d], plain[d], p);
      }
      AllRepresentIsSafe(n, dirs, plain);
      EntryDrop(n, dirs, plain, d, p);
      if quiet { TidyRemove(n, dirs, d, p); }
      FramedDrop(dirs0, dirs, d, c);
      ghost var t := trace;
      var e := Unlink(d, c, false);
      SafeAppend(n, t, dirs);
      if e != OK {
        return false;
      }
      plain := plain[d := plain[d] - {p}];
      if IsLongContent(c) {
        NameFileIsOwn(c);
        FramedDrop(dirs0, dirs, d, NameFile(c));
        e := DeleteLongNameAt(d, c);
      }
      ok := e == OK;
    }

    /** The directory appears, then its IV; without the IV it goes again. */
    method MkdirWithIv(d: nat, p: bytes, iv: bytes) returns (e: Errno)
      requires Valid() && d in dirs && IsValidName(p) && |iv| == 16 && iv != Zeros(16)
      requires var c := EntryName(n, p, Iv(dirs[d])); IsLongContent(c) ==> GoodNameFile(n, dirs[d], c)
      modifies this`dirs, this`trace, this`plain, this`nextId
      ensures old(trace) <= trace
      ensures Valid()
      ensures e == OK ==> p !in old(plain)[d] && plain == WithDir(old(plain), d, p, old(nextId))
      ensures old(nextId) <= nextId && (e == OK ==> old(nextId) < nextId)
      ensures e != OK ==> plain == old(plain) && dirs == old(dirs)
      ensures e == OK ==>
        var c := EntryName(n, p, Iv(old(dirs)[d]));
        dirs == old(dirs)[d := old(dirs)[d][c := DirNode(old(nextId))]]
                         [old(nextId) := map[DIR_IV_FILENAME := FileNode(iv)]]
      ensures EntryName(n, p, Iv(old(dirs)[d])) in old(dirs)[d] ==> e != OK
      ensures EntryName(n, p, Iv(old(dirs)[d])) !in old(dirs)[d] && !faulty ==> e == OK
    {
      hide NameType, HashLongName, GoodNameFile, Represents, DirSafe, IsTemp, IsValidName, NameFile, EncryptRaw,
           EntryName, AllRepresent, AllSafe, SafeTrace, IsLongContent, Iv, HasIv, EmptyDirAt;
      var c := EntryName(n, p, Iv(dirs[d]));
      ghost var dirs0, id := dirs, nextId;
      AllRepresentIsSafe(n, dirs, plain);
      Both(n, dirs, plain, d);
      EntryLookup(n, dirs[d], plain[d], p);
      ghost var base := dirs[d := dirs[d][c := DirNode(id)]];
      EntryPut(n, dirs, plain, d, p, DirNode(id));
      BareDir(n, iv);
      NewDir(n, base, plain[d := plain[d][p := DirNode(id)]], id, iv);
      ghost var t := trace;
      e := Mkdir(d, c);
      SafeAppend(n, t, dirs);
      if e != OK {
        return;
      }
      var child := dirs[d][c].id;
      var refused := Fault(false);
      if refused {
        e := EIO;
      } else {
        e := WriteDirIV(child, iv, base);
      }
      if e != OK {
        t := trace;
        UndoMkdir(dirs0, d, c, id);
        var _ := Rmdir(d, c, true);
        SafeAppend(n, t, dirs);
        return;
      }
      plain := WithDir(plain, d, p, id);
    }

    /** WriteDirIVAt in a directory just made; base is all the rest. */
    method WriteDirIV(child: nat, iv: bytes, ghost base: Dirs) returns (e: Errno)
      requires child in dirs && dirs == base[child := map[]] && AllSafe(n, base) && TraceSafe()
      requires DirSafe(n, map[]) && forall node :: DirSafe(n, map[DIR_IV_FILENAME := node])
      modifies this`dirs, this`trace
      ensures old(trace) <= trace
      ensures TraceSafe()
      ensures dirs == base[child := if e == OK then map[DIR_IV_FILENAME := FileNode(iv)] else map[]]
      ensures !faulty ==> e == OK
    {
      hide DirSafe, AllSafe, SafeTrace;
      ghost var t := trace;
      e := CreateExcl(child, DIR_IV_FILENAME, false);
      SafeWith(n, base, child, dirs);
      SafeAppend(n, t, dirs);
      if e == OK {
        t := trace;
        e := WriteData(child, DIR_IV_FILENAME, iv);
        SafeWith(n, base, child, dirs);
        SafeAppend(n, t, dirs);
        if e != OK {
          t := trace;
          var _ := Unlink(child, DIR_IV_FILENAME, true);
          SafeWith(n, base, child, dirs);
          SafeAppend(n, t, dirs);
        }
      }
    }

    /** gcf_mkdir. Opening the new directory afterwards can still fail; it is there all the same. */
    method MakeDir(d: nat, p: bytes, iv: bytes) returns (ok: bool)
      requires Valid() && d in dirs && |iv| == 16 && iv != Zeros(16)
      modifies this`dirs, this`trace, this`plain, this`nextId
      ensures old(trace) <= trace
      ensures Valid()
      ensures ok ==> CanMake(old(plain), d, p) && plain == WithDir(old(plain), d, p, old(nextId))
      ensures old(nextId) !in old(plain)
      ensures !ok ==>
        plain == old(plain) || (faulty && CanMake(old(plain), d, p) && plain == WithDir(old(plain), d, p, old(nextId)))
      ensures !faulty && IsValidName(p) && p !in old(plain)[d] && NameFree(n, old(dirs)[d], p) ==> ok
      ensures ok ==> old(nextId) in dirs && dirs[old(nextId)] == map[DIR_IV_FILENAME := FileNode(iv)]
      ensures Framed(old(dirs), dirs, d)
      ensures old(Quiet()) ==> Quiet() && (ok <==> CanMake(old(plain), d, p))
      ensures old(Quiet()) && p !in old(plain)[d] ==>
        (ok <==>
          && 1 <= |p| <= 255 && (forall c | c in p :: c != 0 && c != 47)
          && (|p| <= 2 ==> exists c :: c in p && c != 46))
      ensures old(nextId) <= nextId && (plain != old(plain) ==> old(nextId) < nextId)
    {
      hide NameType, HashLongName, GoodNameFile, Represents, DirSafe, IsTemp, IsValidName, NameFile, EncryptRaw,
           AllRepresent, AllSafe, AllTidy, AllTidyBut, IsLongContent, Iv, HasIv, SafeTrace, Framed;
      ghost var quiet, dirs0, id := Quiet(), dirs, nextId;
      FramedSame(dirs, d);
      Both(n, dirs, plain, d);
      if p !in plain[d] { FreeNames(n, plain, d, p); }
      RepresentsHasIv(n, dirs[d], plain[d]);
      NameOKIsValid(n, p, Iv(dirs[d]));
      var r := Resolve(d, p);
      if !r.NameOK? {
        return false;
      }
      var c := r.cName;
      EntryIsNotOwn(n, p, Iv(dirs[d]));
      EntryLookup(n, dirs[d], plain[d], p);
      if quiet { TidyMkdir(n, dirs, d, p, id, iv); }
      var e;
      if IsLongContent(c) {
        if quiet && NameFile(c) in dirs[d] { TidyNameHasEntry(dirs, d, c); }
        NameFileIsOwn(c);
        e := WriteLongNameAt(d, c, p);
        if e != OK {
          return false;
        }
        IvOther(dirs0[d], NameFile(c), dirs[d][NameFile(c)]);
        FramedPut(dirs0, dirs0, d, NameFile(c), dirs[d][NameFile(c)]);
        Both(n, dirs, plain, d);
        EntryNameFile(n, dirs[d], plain[d], p);
        EntryLookup(n, dirs[d], plain[d], p);
        FramedMkdir(dirs0, dirs, d, c, id, iv);
        e := MkdirWithIv(d, p, iv);
        if e != OK {
          FramedDrop(dirs0, dirs, d, NameFile(c));
          var _ := DeleteLongNameAt(d, c);
          return false;
        }
      } else {
        FramedMkdir(dirs0, dirs, d, c, id, iv);
        e := MkdirWithIv(d, p, iv);
        if e != OK {
          return false;
        }
      }
      var refused := Fault(false);
      ok := !refused;
    }

    /**
     gcf_rmdir. The directory IV moves to the parent under a name made of a random number, rnd,
     taken to be unused there, so that the directory is empty when it is removed.
     */
    method RemoveDir(d: nat, p: bytes, rnd: bytes) returns (ok: bool)
      requires Valid() && d in dirs && TEMP_PREFIX + rnd !in dirs[d]
      modifies this`dirs, this`trace, this`plain
      ensures old(trace) <= trace
      ensures Valid()
      ensures ok ==> IsEmptyDir(old(plain), d, p) && plain == WithoutDir(old(plain), d, p)
      ensures !ok ==> plain == old(plain) && dirs == old(dirs)
      ensures ok ==> d in dirs && EntryName(n, p, Iv(old(dirs)[d])) !in dirs[d] && BareAt(old(dirs), old(plain), d, p)
      ensures IvsLess(old(dirs), dirs)
      ensures ok && !faulty && IsLongContent(EntryName(n, p, Iv(old(dirs)[d]))) ==>
        NameFile(EntryName(n, p, Iv(old(dirs)[d]))) !in dirs[d]
      ensures !faulty && BareAt(old(dirs), old(plain), d, p) ==> ok
      ensures old(Quiet()) ==> Quiet() && (ok <==> IsEmptyDir(old(plain), d, p))
    {
      hide NameType, HashLongName, GoodNameFile, Represents, DirSafe, IsValidName, NameFile, EncryptRaw, AllRepresent,
           AllSafe, EntryName, Own, AllTidy, AllTidyBut, SafeTrace, IvsLess;
      ghost var quiet, dirs0 := Quiet(), dirs;
      IvsSame(dirs);
      Both(n, dirs, plain, d);
      RepresentsHasIv(n, dirs[d], plain[d]);
      PlainNamesValid(n, dirs[d], plain[d]);
      NameOKIsValid(n, p, Iv(dirs[d]));
      var r := Resolve(d, p);
      if !r.NameOK? {
        return false;
      }
      var c := r.cName;
      EntryLookup(n, dirs[d], plain[d], p);
      EntryIsNotOwn(n, p, Iv(dirs[d]));
      if quiet && IsEmptyDir(plain, d, p) { TidyBareAt(n, dirs, plain, d, p); }
      if !(c in dirs[d] && dirs[d][c].DirNode? && dirs[d][c].id in dirs) {
        return false;
      }
      var child := dirs[d][c].id;
      Both(n, dirs, plain, child);
      if |dirs[child].Keys| > 1 {
        return false;
      }
      OnlyIv(n, dirs[child], plain[child]);
      OwnIv();
      if quiet { TidyRmdir(n, dirs, d, p, child); }
      ghost var e0 := dirs[d];
      if IsLongContent(c) {
        NameFileIsOwn(c);
        GoodIsThere(n, e0, c);
      }
      ok := RmdirDance(d, p, c, child, TEMP_PREFIX + rnd);
      if !ok {
        return;
      }
      OwnKinds(TEMP_PREFIX + rnd);
      ghost var dirs1 := dirs;
      IvsOfRemoval(dirs0, dirs1, d, c, child, TEMP_PREFIX + rnd);
      if IsLongContent(c) {
        IvsOfName(dirs1, d, c);
        var _ := DeleteLongNameAt(d, c);
        IvsLessTwice(dirs0, dirs1, dirs);
      }
    }

    /**
     gcf_rename. Every long name keeps its name file through all of it, except when the long name
     is renamed to itself, or a directory takes the place of an empty one with a long name.
     */
    method Rename(d1: nat, p1: bytes, d2: nat, p2: bytes, rnd: bytes) returns (ok: bool)
      requires Valid() && d1 in dirs && d2 in dirs && TEMP_PREFIX + rnd !in dirs[d2]
      modifies this`dirs, this`trace, this`plain
      ensures old(trace) <= trace
      ensures IvsLess(old(dirs), dirs)
      ensures ok ==> CanRename(old(plain), d1, p1, d2, p2)
      ensures old(Quiet()) ==> (ok <==> CanRename(old(plain), d1, p1, d2, p2)) && (!ok ==> plain == old(plain))
      ensures && !faulty && FileAt(old(plain), d1, p1) && IsValidName(p2)
              && (p2 in old(plain)[d2] ==> FileAt(old(plain), d2, p2)) ==>
        ok
      ensures !ok || !LosesName(n, old(dirs), old(plain), d1, p1, d2, p2) ==>
        && Valid() && (old(Quiet()) ==> Quiet())
        && (ok ==> plain == Renamed(old(plain), d1, p1, d2, p2))
        && (!ok ==> || plain == old(plain)
                    || (IsEmptyDir(old(plain), d2, p2) && plain == WithoutDir(old(plain), d2, p2)))
      ensures !faulty ==> (AllSafe(n, dirs) <==> !(ok && LosesName(n, old(dirs), old(plain), d1, p1, d2, p2)))
      ensures old(Quiet()) ==> (AllSafe(n, dirs) <==> !LosesName(n, old(dirs), old(plain), d1, p1, d2, p2))
    {
      hide NameType, HashLongName, GoodNameFile, Represents, DirSafe, IsValidName, NameFile, EncryptRaw, AllRepresent,
           AllSafe, IsTemp, WithoutDir, IsEmptyDir, BareAt, Renamed, EntryName, LosesName, Own, AllTidy, AllTidyBut,
           CanRename, Pending, IvsLess;
      IvsSame(dirs);
      AllRepresentIsSafe(n, dirs, plain);
      Both(n, dirs, plain, d1);
      Both(n, dirs, plain, d2);
      LosesCan(n, dirs, plain, d1, p1, d2, p2);
      RepresentsHasIv(n, dirs[d1], plain[d1]);
      RepresentsHasIv(n, dirs[d2], plain[d2]);
      PlainNamesValid(n, dirs[d1], plain[d1]);
      NameOKIsValid(n, p1, Iv(dirs[d1]));
      NameOKIsValid(n, p2, Iv(dirs[d2]));
      CanRenameNames(plain, d1, p1, d2, p2);
      var r1, r2 := Resolve(d1, p1), Resolve(d2, p2);
      if !r1.NameOK? || !r2.NameOK? {
        return false;
      }
      var c1, c2 := r1.cName, r2.cName;
      ghost var dirs0 := dirs;
      var nameFileAlreadyThere, ready := PrepareNameFile(d2, p2, c2);
      if !ready {
        return false;
      }
      OwnIv();
      LosesNameKept(n, dirs0, dirs, plain, d1, p1, d2, p2);
      ghost var dirs1 := dirs;
      ok := RenamePrepared(d1, p1, c1, d2, p2, c2, nameFileAlreadyThere, rnd);
      IvsLessTwice(dirs0, dirs1, dirs);
      if Valid() { AllRepresentIsSafe(n, dirs, plain); }
    }

    /** Write the name file of a long destination, unless it is there. */
    method PrepareNameFile(d: nat, p: bytes, c: bytes) returns (there: bool, ready: bool)
      requires Valid() && d in dirs && IsValidName(p) && c == EntryName(n, p, Iv(dirs[d]))
      modifies this`dirs, this`trace
      ensures old(trace) <= trace
      ensures IvsLess(old(dirs), dirs)
      ensures Valid()
      ensures !ready ==> faulty && dirs == old(dirs)
      ensures d in dirs && (ready && IsLongContent(c) ==> GoodNameFile(n, dirs[d], c))
      ensures ready && IsLongContent(c) && !there ==> c !in dirs[d]
      ensures dirs == old(dirs) || (c !in old(dirs)[d] && dirs == old(dirs)[d := dirs[d]])
      ensures Iv(dirs[d]) == Iv(old(dirs)[d])
      ensures forall x | !Own(x) || IsTemp(x) ::
        (x in dirs[d] <==> x in old(dirs)[d]) && (x in dirs[d] ==> dirs[d][x] == old(dirs)[d][x])
      ensures old(Quiet()) ==> AllTidyBut(dirs, d, if there then {} else Pending(c))
    {
      hide NameType, HashLongName, GoodNameFile, Represents, DirSafe, IsValidName, NameFile, EncryptRaw, AllRepresent,
           AllSafe, IsTemp, EntryName, Own, AllTidy, AllTidyBut, IvsLess;
      IvsSame(dirs);
      there, ready := false, true;
      ghost var quiet, dirs0 := Quiet(), dirs;
      TidyButNothing(dirs, d);
      if IsLongContent(c) {
        Both(n, dirs, plain, d);
        EntryNameFile(n, dirs[d], plain[d], p);
        NameFileIsOwn(c);
        IvsOfPut(dirs, d, NameFile(c), FileNode(EncryptRaw(n, p, Iv(dirs[d]))));
        if quiet { TidyNewName(dirs, d, c, EncryptRaw(n, p, Iv(dirs[d]))); }
        var e := WriteLongNameAt(d, c, p);
        if e == EEXIST {
          there := true;
        } else if e != OK {
          ready := false;
          return;
        }
        Both(n, dirs, plain, d);
        EntryNameFile(n, dirs[d], plain[d], p);
      }
    }

    method RenamePrepared(d1: nat, p1: bytes, c1: bytes, d2: nat, p2: bytes, c2: bytes, nameFileAlreadyThere: bool,
                          rnd: bytes)
      returns (ok: bool)
      requires Valid() && d1 in dirs && d2 in dirs && TEMP_PREFIX + rnd !in dirs[d2] && IsValidName(p1)
      requires IsValidName(p2)
      requires c1 == EntryName(n, p1, Iv(dirs[d1])) && c2 == EntryName(n, p2, Iv(dirs[d2]))
      requires IsLongContent(c2) ==> GoodNameFile(n, dirs[d2], c2) && (!nameFileAlreadyThere ==> c2 !in dirs[d2])
      modifies this`dirs, this`trace, this`plain
      ensures old(trace) <= trace
      ensures IvsLess(old(dirs), dirs)
      ensures ok ==> CanRename(old(plain), d1, p1, d2, p2)
      ensures !faulty && AllTidyBut(old(dirs), d2, if nameFileAlreadyThere then {} else Pending(c2)) ==>
        && (ok <==> CanRename(old(plain), d1, p1, d2, p2)) && (!ok ==> plain == old(plain))
        && (!ok || !LosesName(n, old(dirs), old(plain), d1, p1, d2, p2) ==> AllTidy(dirs))
      ensures !faulty && FileAt(old(plain), d1, p1) && (p2 in old(plain)[d2] ==> FileAt(old(plain), d2, p2)) ==> ok
      ensures !ok || !LosesName(n, old(dirs), old(plain), d1, p1, d2, p2) ==>
        && Valid()
        && (ok ==> plain == Renamed(old(plain), d1, p1, d2, p2))
        && (!ok ==> || plain == old(plain)
                    || (IsEmptyDir(old(plain), d2, p2) && plain == WithoutDir(old(plain), d2, p2)))
      ensures LosesName(n, old(dirs), old(plain), d1, p1, d2, p2) && ok && !faulty ==> !AllSafe(n, dirs)
    {
      hide NameType, HashLongName, Represents, DirSafe, IsValidName, NameFile, EncryptRaw, AllRepresent, AllSafe,
           IsTemp, WithoutDir, IsEmptyDir, BareAt, EntryName, Own, Renamed, AllTidy, AllTidyBut, CanRename, Pending,
           SafeTrace, IvsLess, LosesName, ReplacesLongDir, IsLongContent, Iv, FileAt, EmptyDirAt;
      ghost var dirs0 := dirs;
      Both(n, dirs, plain, d1);
      Both(n, dirs, plain, d2);
      RenamedToItself(plain, d1, p1);
      CanRenameNames(plain, d1, p1, d2, p2);
      EntryLookup(n, dirs[d2], plain[d2], p2);
      LosesIs(n, dirs, plain, d1, p1, d2, p2);
      ghost var loses := LosesName(n, dirs, plain, d1, p1, d2, p2);
      ghost var pending := if nameFileAlreadyThere then {} else Pending(c2);
      ghost var quiet := !faulty && AllTidyBut(dirs, d2, pending);
      if quiet { TidyButMore(dirs, d2, pending, Pending(c2)); }
      var e := RenameEntry(d1, p1, c1, d2, p2, c2, rnd);
      ghost var dirs1 := dirs;
      IvsSame(dirs1);
      if e != OK {
        if IsLongContent(c2) && !nameFileAlreadyThere {
          DropNameOf(d2, c2);
          IvsLessTwice(dirs0, dirs1, dirs);
        } else if quiet {
          PendingIs(c2);
          TidyButNothing(dirs, d2);
        }
        return false;
      }
      DropNameOf(d1, c1);
      IvsLessTwice(dirs0, dirs1, dirs);
      if loses && !faulty {
        NameLost(n, dirs1, dirs, d1, c1, d2, c2);
      }
      return true;
    }

    /** The name file of an entry that is not there goes, if it has one. */
    method DropNameOf(d: nat, c: bytes)
      requires d in dirs
      modifies this`dirs, this`trace
      ensures old(trace) <= trace
      ensures IvsLess(old(dirs), dirs)
      ensures dirs == old(dirs) || (IsLongContent(c) && dirs == old(dirs)[d := old(dirs)[d] - {NameFile(c)}])
      ensures old(Valid()) && (IsLongContent(c) ==> c !in old(dirs)[d]) ==> Valid()
      ensures !IsLongContent(c) ==> dirs == old(dirs) && trace == old(trace)
      ensures old(Valid()) && !faulty && AllTidyBut(old(dirs), d, Pending(c)) ==> AllTidy(dirs)
      ensures !faulty && IsLongContent(c) && NameFile(c) in old(dirs)[d] && old(dirs)[d][NameFile(c)].FileNode? ==>
        dirs == old(dirs)[d := old(dirs)[d] - {NameFile(c)}]
    {
      hide NameType, Represents, DirSafe, NameFile, AllRepresent, AllSafe, IsTemp, Own, AllTidy, AllTidyBut, Pending,
           SafeTrace, IvsLess;
      PendingIs(c);
      IvsSame(dirs);
      ghost var dirs0 := dirs;
      if IsLongContent(c) {
        IvsOfName(dirs, d, c);
        if Valid() && AllTidyBut(dirs, d, Pending(c)) {
          TidyNameGone(dirs, d, c);
          Both(n, dirs, plain, d);
          NameFileIsFile(n, dirs[d], plain[d], c);
          assert NameFile(c) !in dirs[d] ==> dirs[d := dirs[d] - {NameFile(c)}] == dirs;
        }
        var _ := DeleteLongNameAt(d, c);
      } else {
        TidyButNothing(dirs, d);
      }
    }

    /** The rename itself: a directory in the way is removed first, if it is empty, and the rename tried again. */
    method RenameEntry(d1: nat, p1: bytes, c1: bytes, d2: nat, p2: bytes, c2: bytes, rnd: bytes) returns (e: Errno)
      requires Valid() && d1 in dirs && d2 in dirs && TEMP_PREFIX + rnd !in dirs[d2] && IsValidName(p1)
      requires IsValidName(p2)
      requires c1 == EntryName(n, p1, Iv(dirs[d1])) && c2 == EntryName(n, p2, Iv(dirs[d2]))
      requires IsLongContent(c2) ==> GoodNameFile(n, dirs[d2], c2)
      modifies this`dirs, this`trace, this`plain
      ensures old(trace) <= trace
      ensures IvsLess(old(dirs), dirs)
      ensures e == OK ==> CanRename(old(plain), d1, p1, d2, p2) && d1 in dirs && d2 in dirs
      ensures !faulty && AllTidyBut(old(dirs), d2, Pending(c2)) ==>
        && (e == OK <==> CanRename(old(plain), d1, p1, d2, p2))
        && (e != OK ==> dirs == old(dirs) && plain == old(plain))
        && (e == OK && (d1, p1) != (d2, p2) && !ReplacesLongDir(n, old(dirs), old(plain), d1, p1, d2, p2) ==>
              AllTidyBut(dirs, d1, Pending(c1)))
      ensures !faulty && FileAt(old(plain), d1, p1) && (p2 in old(plain)[d2] ==> FileAt(old(plain), d2, p2)) ==> e == OK
      ensures (d1, p1) == (d2, p2) ==> Valid() && plain == old(plain) && dirs == old(dirs)
      ensures e != OK && c2 !in old(dirs)[d2] ==> dirs == old(dirs)
      ensures e == OK && (d1, p1) != (d2, p2) && !ReplacesLongDir(n, old(dirs), old(plain), d1, p1, d2, p2) ==>
        Valid() && c1 !in dirs[d1] && plain == Renamed(old(plain), d1, p1, d2, p2)
      ensures e != OK ==>
        && Valid()
        && (|| plain == old(plain)
            || (IsEmptyDir(old(plain), d2, p2) && plain == WithoutDir(old(plain), d2, p2)))
      ensures && ReplacesLongDir(n, old(dirs), old(plain), d1, p1, d2, p2)
              && (d1, p1) != (d2, p2) && !faulty && e == OK ==>
        c2 in dirs[d2] && NameFile(c2) !in dirs[d2]
    {
      hide NameType, HashLongName, GoodNameFile, Represents, DirSafe, IsValidName, NameFile, EncryptRaw, AllRepresent,
           AllSafe, EntryName, Own, IsTemp, Moved, WithoutDir, IsEmptyDir, BareAt, AllTidy, AllTidyBut, Pending,
           Reach, RenameErrno, CanRename, IvsLess;
      IvsSame(dirs);
      ghost var dirs0, plain0 := dirs, plain;
      ghost var quiet := !faulty && AllTidyBut(dirs, d2, Pending(c2));
      AllRepresentIsSafe(n, dirs, plain);
      MoveStates(n, dirs, plain, d1, p1, d2, p2);
      RenameAnswer(n, dirs, plain, d1, p1, d2, p2);
      FilesMove(n, dirs, plain, d1, p1, d2, p2);
      EntryIsNotOwn(n, p1, Iv(dirs[d1]));
      EntryIsNotOwn(n, p2, Iv(dirs[d2]));
      if quiet {
        TidyAnswer(n, dirs, plain, d1, p1, d2, p2, d2, Pending(c2));
        if c1 in dirs[d1] && (d1, p1) != (d2, p2) { TidyMove(dirs, d1, c1, d2, c2); }
        if c2 in dirs[d2] { TidyPresent(dirs, d2, c2); }
      }
      if c1 in dirs[d1] { IvsOfMove(dirs, d1, c1, d2, c2); }
      e := Renameat(d1, c1, d2, c2, false);
      if e == OK {
        if (d1, p1) != (d2, p2) { plain := Renamed(plain, d1, p1, d2, p2); }
        return;
      }
      if e == ENOTEMPTY || e == EEXIST {
        e := RenameInstead(d1, p1, c1, d2, p2, c2, rnd, e);
      }
    }

    /** A directory is in the way: if it is empty it goes, and the rename is tried again; or the first error stays. */
    method RenameInstead(d1: nat, p1: bytes, c1: bytes, d2: nat, p2: bytes, c2: bytes, rnd: bytes, error: Errno)
      returns (e: Errno)
      requires Valid() && d1 in dirs && d2 in dirs && TEMP_PREFIX + rnd !in dirs[d2] && IsValidName(p1)
      requires IsValidName(p2)
      requires c1 == EntryName(n, p1, Iv(dirs[d1])) && c2 == EntryName(n, p2, Iv(dirs[d2]))
      requires d1 in plain && d2 in plain && MeetsDir(plain, d1, p1, d2, p2) && error != OK
      modifies this`dirs, this`trace, this`plain
      ensures old(trace) <= trace
      ensures IvsLess(old(dirs), dirs)
      ensures e == OK ==> IsEmptyDir(old(plain), d2, p2) && plain == Renamed(old(plain), d1, p1, d2, p2)
      ensures e == OK ==> d1 in dirs && d2 in dirs && CanRename(old(plain), d1, p1, d2, p2)
      ensures e != OK ==> || plain == old(plain)
                          || (IsEmptyDir(old(plain), d2, p2) && plain == WithoutDir(old(plain), d2, p2))
      ensures old(Quiet()) ==>
        && (e == OK <==> IsEmptyDir(old(plain), d2, p2)) && (e != OK ==> dirs == old(dirs) && plain == old(plain))
        && (e == OK && !IsLongContent(c2) ==> AllTidyBut(dirs, d1, Pending(c1)))
      ensures e == OK ==> BareAt(old(dirs), old(plain), d2, p2)
      ensures e != OK || !IsLongContent(c2) || !BareAt(old(dirs), old(plain), d2, p2) ==> Valid()
      ensures !IsLongContent(c2) && e == OK ==> c1 !in dirs[d1]
      ensures e == OK && IsLongContent(c2) && !faulty ==> c2 in dirs[d2] && NameFile(c2) !in dirs[d2]
    {
      hide NameType, HashLongName, GoodNameFile, Represents, DirSafe, IsValidName, NameFile, EncryptRaw, AllRepresent,
           AllSafe, EntryName, Own, IsTemp, Moved, WithoutDir, IsEmptyDir, BareAt, AllTidy, AllTidyBut, Pending,
           Reach, RenameErrno, CanRename, IvsLess;
      ghost var dirs0, plain0, quiet := dirs, plain, Quiet();
      e := error;
      var removed := RemoveDir(d2, p2, rnd);
      if removed {
        ghost var dirs1 := dirs;
        AfterRemoval(plain0, plain, d1, p1, d2, p2);
        CanStillRename(plain0, d1, p1, d2, p2);
        KeysAgree(n, dirs, plain);
        IvsAt(dirs0, dirs, d1);
        IvsAt(dirs0, dirs, d2);
        if quiet && !IsLongContent(c2) { TidyMoveAgain(n, dirs, plain, d1, p1, d2, p2); }
        e := RenameAgain(d1, p1, c1, d2, p2, c2);
        IvsLessTwice(dirs0, dirs1, dirs);
      }
    }

    /** The second try, with nothing in the way. A long name has no name file by then. */
    method RenameAgain(d1: nat, p1: bytes, c1: bytes, d2: nat, p2: bytes, c2: bytes) returns (e: Errno)
      requires Valid() && d1 in dirs && d2 in dirs && IsValidName(p1) && IsValidName(p2) && (d1, p1) != (d2, p2)
      requires c1 == EntryName(n, p1, Iv(dirs[d1])) && c2 == EntryName(n, p2, Iv(dirs[d2]))
      requires d1 in plain && d2 in plain && p1 in plain[d1] && p2 !in plain[d2] && !IsEmptyDir(plain, d2, p2)
      modifies this`dirs, this`trace, this`plain
      ensures old(trace) <= trace
      ensures IvsLess(old(dirs), dirs)
      ensures e == OK ==> d1 in dirs && d2 in dirs && plain == Renamed(old(plain), d1, p1, d2, p2)
      ensures e == OK ==> c1 in old(dirs)[d1] && dirs == Moved(old(dirs), d1, c1, d2, c2)
      ensures old(Quiet()) && CanRename(old(plain), d1, p1, d2, p2) ==> e == OK
      ensures e != OK ==> plain == old(plain)
      ensures !IsLongContent(c2) && e == OK ==> c1 !in dirs[d1]
      ensures e != OK || !IsLongContent(c2) ==> Valid()
      ensures e == OK && IsLongContent(c2) && NameFile(c2) !in old(dirs)[d2] ==>
        c2 in dirs[d2] && NameFile(c2) !in dirs[d2]
    {
      hide NameType, HashLongName, GoodNameFile, Represents, DirSafe, IsValidName, NameFile, EncryptRaw, AllRepresent,
           AllSafe, EntryName, Own, IsTemp, Moved, WithoutDir, IsEmptyDir, BareAt, AllTidy, AllTidyBut, CanRename,
           RenameErrno, IvsLess;
      IvsSame(dirs);
      EntryIsNotOwn(n, p1, Iv(dirs[d1]));
      EntryIsNotOwn(n, p2, Iv(dirs[d2]));
      if c1 in dirs[d1] { IvsOfMove(dirs, d1, c1, d2, c2); }
      AllRepresentIsSafe(n, dirs, plain);
      Both(n, dirs, plain, d1);
      Both(n, dirs, plain, d2);
      EntryLookup(n, dirs[d1], plain[d1], p1);
      EntryLookup(n, dirs[d2], plain[d2], p2);
      MovedEntry(dirs, d1, c1, d2, c2);
      if Quiet() {
        TidyButNothing(dirs, d2);
        TidyAnswer(n, dirs, plain, d1, p1, d2, p2, d2, {});
      }
      if IsLongContent(c2) {
        NameFileIsOwn(c2);
      } else {
        MoveStates(n, dirs, plain, d1, p1, d2, p2);
      }
      e := Renameat(d1, c1, d2, c2, false);
      if e == OK {
        plain := Renamed(plain, d1, p1, d2, p2);
      }
    }

    /** The directory IV moves out, the directory goes, the IV goes; if the directory stays, the IV moves back. */
    method RmdirDance(d: nat, p: bytes, c: bytes, child: nat, tmp: bytes) returns (ok: bool)
      requires Valid() && d in dirs && child in dirs && child != d && IsValidName(p)
      requires c == EntryName(n, p, Iv(dirs[d]))
      requires IsTemp(tmp) && tmp !in dirs[d] && c in dirs[d] && dirs[d][c] == DirNode(child)
      requires DIR_IV_FILENAME in dirs[child] && dirs[child] == map[DIR_IV_FILENAME := dirs[child][DIR_IV_FILENAME]]
      requires dirs[child][DIR_IV_FILENAME].FileNode?
      requires d in plain && IsEmptyDir(plain, d, p) && plain[d][p].id == child
      modifies this`dirs, this`trace, this`plain
      ensures old(trace) <= trace
      ensures Valid()
      ensures ok ==> plain == WithoutDir(old(plain), d, p)
      ensures ok ==> || dirs == old(dirs)[d := old(dirs)[d] - {c}] - {child}
                     || dirs == old(dirs)[d := old(dirs)[d][tmp := old(dirs)[child][DIR_IV_FILENAME]] - {c}] - {child}
      ensures !faulty ==> ok && dirs == old(dirs)[d := old(dirs)[d] - {c}] - {child}
      ensures !ok ==> plain == old(plain) && dirs == old(dirs)
    {
      hide NameType, HashLongName, GoodNameFile, Represents, DirSafe, IsValidName, NameFile, EncryptRaw, AllRepresent,
           AllSafe, EntryName, Own, IsTemp, EmptyDirAt, Moved, WithoutDir, SafeTrace;
      ghost var dirs0: Dirs, ivNode := dirs, dirs[child][DIR_IV_FILENAME];
      AllRepresentIsSafe(n, dirs, plain);
      RmdirStates(n, dirs, plain, d, p, child, tmp);
      IvMoved(dirs0, d, child, tmp);
      ghost var t := trace;
      var e := Renameat(child, DIR_IV_FILENAME, d, tmp, false);
      SafeAppend(n, t, dirs);
      if e != OK {
        return false;
      }
      EmptyNow(dirs, d, c, child);
      t := trace;
      e := Rmdir(d, c, false);
      if e != OK {
        SafeAppend(n, t, dirs);
        t := trace;
        var _ := Renameat(d, tmp, child, DIR_IV_FILENAME, true);
        IvMovedBack(dirs0, d, child, tmp);
        SafeAppend(n, t, dirs);
        return false;
      }
      IvRemoved(dirs0, d, child, tmp, c);
      SafeAppend(n, t, dirs);
      plain := WithoutDir(plain, d, p);
      t := trace;
      e := Unlink(d, tmp, false);
      SafeAppend(n, t, dirs);
      return true;
    }
  }

  /** The directory p stands for has its IV as its only entry. */
  predicate BareAt(dirs: Dirs, plain: Dirs, d: nat, p: bytes)
    requires d in plain
  {
    IsEmptyDir(plain, d, p) && plain[d][p].id in dirs && |dirs[plain[d][p].id].Keys| <= 1
  }

  lemma FramedSame(a: Dirs, d: nat)
    requires d in a
    ensures Framed(a, a, d)
  {
  }

  lemma FramedPut(a: Dirs, b: Dirs, d: nat, f: bytes, node: Node)
    requires Framed(a, b, d) && f != DIR_IV_FILENAME && !IsTemp(f)
    ensures Framed(a, b[d := b[d][f := node]], d)
  {
    hide IsTemp;
  }

  lemma FramedDrop(a: Dirs, b: Dirs, d: nat, f: bytes)
    requires Framed(a, b, d) && f != DIR_IV_FILENAME && !IsTemp(f)
    ensures Framed(a, b[d := b[d] - {f}], d)
  {
    hide IsTemp;
  }

  lemma FramedMkdir(a: Dirs, b: Dirs, d: nat, c: bytes, id: nat, iv: bytes)
    requires Framed(a, b, d) && c != DIR_IV_FILENAME && !IsTemp(c) && id !in a
    ensures Framed(a, b[d := b[d][c := DirNode(id)]][id := map[DIR_IV_FILENAME := FileNode(iv)]], d)
  {
    hide IsTemp;
  }

  lemma IvsSame(a: Dirs)
    ensures IvsKept(a, a) && IvsLess(a, a)
  {
  }

  lemma LessKeepsIvs(a: Dirs, b: Dirs)
    requires IvsLess(a, b)
    ensures IvsKept(a, b)
  {
  }

  lemma IvsAt(a: Dirs, b: Dirs, d: nat)
    requires IvsLess(a, b) && d in b
    ensures d in a && Iv(b[d]) == Iv(a[d])
  {
  }

  lemma IvsLessTwice(a: Dirs, b: Dirs, c: Dirs)
    requires IvsLess(a, b) && IvsLess(b, c)
    ensures IvsLess(a, c)
  {
  }

  lemma IvsOfPut(a: Dirs, d: nat, f: bytes, node: Node)
    requires d in a && f != DIR_IV_FILENAME
    ensures IvsLess(a, a[d := a[d][f := node]]) && IvsLess(a, a[d := a[d] - {f}])
  {
  }

  lemma IvsOfName(a: Dirs, d: nat, h: bytes)
    requires d in a && IsLongContent(h)
    ensures IvsLess(a, a[d := a[d] - {NameFile(h)}])
  {
    NameFileIsOwn(h);
    IvsOfPut(a, d, NameFile(h), FileNode([]));
  }

  lemma IvsOfRemoval(a: Dirs, b: Dirs, d: nat, c: bytes, child: nat, tmp: bytes)
    requires d in a && c != DIR_IV_FILENAME && tmp != DIR_IV_FILENAME && tmp != c && d != child && child in a
    requires DIR_IV_FILENAME in a[child]
    requires b == a[d := a[d] - {c}] - {child} || b == a[d := a[d][tmp := a[child][DIR_IV_FILENAME]] - {c}] - {child}
    ensures IvsLess(a, b) && d in b && c !in b[d]
    ensures forall x | x != c && x != tmp :: (x in b[d] <==> x in a[d]) && (x in b[d] ==> b[d][x] == a[d][x])
  {
  }

  lemma IvsOfMove(a: Dirs, d1: nat, c1: bytes, d2: nat, c2: bytes)
    requires d1 in a && d2 in a && c1 in a[d1] && !Own(c1) && !Own(c2)
    ensures IvsLess(a, Moved(a, d1, c1, d2, c2))
  {
    hide Own;
    OwnIv();
    var node := a[d1][c1];
    var taken: Dirs := a[d1 := a[d1] - {c1}];
    IvsOfPut(a, d1, c1, node);
    IvsOfPut(taken, d2, c2, node);
    IvsLessTwice(a, taken, taken[d2 := taken[d2][c2 := node]]);
  }

  lemma FramedKeepsIvs(a: Dirs, b: Dirs, d: nat)
    requires Framed(a, b, d)
    ensures IvsKept(a, b)
  {
  }

  lemma IvOther(e: Dir, f: bytes, node: Node)
    requires f != DIR_IV_FILENAME
    ensures Iv(e[f := node]) == Iv(e) && Iv(e - {f}) == Iv(e) && HasIv(e[f := node]) == HasIv(e)
  {
  }

  /** All is safe around a directory that holds at most its IV, as it comes into being. */
  lemma SafeWith(n: NameTransform, base: Dirs, child: nat, dirs: Dirs)
    requires AllSafe(n, base) && child in dirs
    requires DirSafe(n, map[]) && forall node :: DirSafe(n, map[DIR_IV_FILENAME := node])
    requires dirs == base[child := dirs[child]] && dirs[child].Keys <= {DIR_IV_FILENAME}
    ensures AllSafe(n, dirs)
    ensures dirs[child]
        == if DIR_IV_FILENAME in dirs[child] then map[DIR_IV_FILENAME := dirs[child][DIR_IV_FILENAME]] else map[]
  {
    hide DirSafe;
    var e := dirs[child];
    if DIR_IV_FILENAME in e {
      assert e == map[DIR_IV_FILENAME := e[DIR_IV_FILENAME]];
    } else {
      assert e == map[];
    }
    assert DirSafe(n, e);
    forall d | d in dirs && d != child ensures DirSafe(n, dirs[d]) { assert dirs[d] == base[d]; }
  }

  /** Writing a file that was just added, and taking it away again. */
  lemma UndoPut(dirs: Dirs, d: nat, f: bytes, a: Node, b: Node)
    requires d in dirs && f !in dirs[d]
    ensures var more := dirs[d := dirs[d][f := a]];
      more[d := more[d][f := b]] == dirs[d := dirs[d][f := b]] && more[d := more[d] - {f}] == dirs
  {
    assert dirs[d][f := a] - {f} == dirs[d];
    assert dirs[d][f := a][f := b] == dirs[d][f := b];
  }

  /** Taking away a directory that was just added. */
  lemma UndoMkdir(dirs: Dirs, d: nat, c: bytes, id: nat)
    requires d in dirs && c !in dirs[d] && id !in dirs
    ensures var more := dirs[d := dirs[d][c := DirNode(id)]][id := map[]];
      EmptyDirAt(more, d, c) && more[d := more[d] - {c}] - {id} == dirs
  {
    assert dirs[d][c := DirNode(id)] - {c} == dirs[d];
  }

  lemma EmptyNow(dirs: Dirs, d: nat, c: bytes, child: nat)
    requires d in dirs && child in dirs && c in dirs[d] && dirs[d][c] == DirNode(child)
    ensures dirs[child] == map[] ==> EmptyDirAt(dirs, d, c)
  {
  }

  lemma OwnIv()
    ensures Own(DIR_IV_FILENAME)
    ensures forall rnd: bytes :: IsTemp(TEMP_PREFIX + rnd)
  {
  }

  lemma IvMoved(dirs: Dirs, d: nat, child: nat, tmp: bytes)
    requires d in dirs && child in dirs && d != child && tmp !in dirs[d]
    requires DIR_IV_FILENAME in dirs[child] && dirs[child] == map[DIR_IV_FILENAME := dirs[child][DIR_IV_FILENAME]]
    ensures Moved(dirs, child, DIR_IV_FILENAME, d, tmp)
        == dirs[child := map[]][d := dirs[d][tmp := dirs[child][DIR_IV_FILENAME]]]
  {
    assert dirs[child] - {DIR_IV_FILENAME} == map[];
  }

  lemma IvRemoved(dirs: Dirs, d: nat, child: nat, tmp: bytes, c: bytes)
    requires d in dirs && child in dirs && d != child && DIR_IV_FILENAME in dirs[child] && tmp !in dirs[d]
    ensures var ivNode := dirs[child][DIR_IV_FILENAME]; var moved := dirs[child := map[]][d := dirs[d][tmp := ivNode]];
      && moved[d := moved[d] - {c}] - {child} == dirs[d := dirs[d][tmp := ivNode] - {c}] - {child}
      && (dirs[d := dirs[d][tmp := ivNode] - {c}] - {child})[d := (dirs[d][tmp := ivNode] - {c}) - {tmp}]
      == dirs[d := dirs[d] - {c}] - {child}
  {
    var ivNode := dirs[child][DIR_IV_FILENAME];
    assert (dirs[d][tmp := ivNode] - {c}) - {tmp} == dirs[d] - {c};
  }

  lemma IvMovedBack(dirs: Dirs, d: nat, child: nat, tmp: bytes)
    requires d in dirs && child in dirs && d != child && tmp !in dirs[d]
    requires DIR_IV_FILENAME in dirs[child] && dirs[child] == map[DIR_IV_FILENAME := dirs[child][DIR_IV_FILENAME]]
    ensures var moved := dirs[child := map[]][d := dirs[d][tmp := dirs[child][DIR_IV_FILENAME]]];
      Moved(moved, d, tmp, child, DIR_IV_FILENAME) == dirs
  {
    var ivNode := dirs[child][DIR_IV_FILENAME];
    var moved := dirs[child := map[]][d := dirs[d][tmp := ivNode]];
    assert moved[d] - {tmp} == dirs[d];
    assert moved[child][DIR_IV_FILENAME := ivNode] == dirs[child];
  }

  predicate IsEmptyDir(plain: Dirs, d: nat, p: bytes)
    requires d in plain
  {
    p in plain[d] && plain[d][p].DirNode? && plain[d][p].id in plain && plain[plain[d][p].id] == map[]
  }

  function WithoutDir(plain: Dirs, d: nat, p: bytes): Dirs
    requires d in plain && IsEmptyDir(plain, d, p)
  {
    plain[d := plain[d] - {p}] - {plain[d][p].id}
  }

  /** A directory with one entry holds its IV and nothing else. */
  lemma OnlyIv(n: NameTransform, e: Dir, plain: Dir)
    requires Represents(n, e, plain) && |e.Keys| <= 1
    ensures e == map[DIR_IV_FILENAME := e[DIR_IV_FILENAME]] && e[DIR_IV_FILENAME].FileNode? && plain == map[]
  {
    hide NameType, GoodNameFile, EntryName, IsTemp, IsValidName;
    OneKey(e.Keys, DIR_IV_FILENAME);
    if p :| p in plain {
      EntryIsNotOwn(n, p, Iv(e));
      assert false;
    }
    assert plain.Keys == {};
  }

  lemma OneKey(s: set<bytes>, x: bytes)
    requires x in s && |s| <= 1
    ensures s == {x}
  {
    assert |s - {x}| == |s| - 1;
    assert s == (s - {x}) + {x};
  }

  /** The states on the way of removing an empty directory. */
  lemma RmdirStates(n: NameTransform, dirs: Dirs, plain: Dirs, d: nat, p: bytes, child: nat, tmp: bytes)
    requires AllRepresent(n, dirs, plain) && d in dirs && child in dirs && child != d && IsValidName(p)
    requires IsTemp(tmp) && tmp !in dirs[d] && DIR_IV_FILENAME in dirs[child]
    requires IsEmptyDir(plain, d, p) && plain[d][p].id == child
    ensures var c := EntryName(n, p, Iv(dirs[d])); var ivNode := dirs[child][DIR_IV_FILENAME];
      && AllSafe(n, dirs[child := map[]][d := dirs[d][tmp := ivNode]])
      && AllSafe(n, dirs[d := dirs[d][tmp := ivNode] - {c}] - {child}) && AllSafe(n, dirs[d := dirs[d] - {c}] - {child})
      && AllRepresent(n, dirs[d := dirs[d][tmp := ivNode] - {c}] - {child}, WithoutDir(plain, d, p))
      && AllRepresent(n, dirs[d := dirs[d] - {c}] - {child}, WithoutDir(plain, d, p))
      && tmp != c
  {
    hide NameType, HashLongName, GoodNameFile, IsValidName, NameFile, EncryptRaw, EntryName, Represents, DirSafe;
    var c := EntryName(n, p, Iv(dirs[d]));
    var e, ivNode := dirs[d], dirs[child][DIR_IV_FILENAME];
    var pd := plain[d] - {p};
    OwnKinds(tmp);
    EntryIsNotOwn(n, p, Iv(e));
    EmptyIsSafe(n);
    OwnChange(n, e, e[tmp := ivNode], plain[d], tmp);
    DropEntry(n, e, plain[d], p);
    DropEntry(n, e[tmp := ivNode], plain[d], p);
    forall k | k in dirs ensures DirSafe(n, dirs[k]) { RepresentsIsSafe(n, dirs[k], plain[k]); }
    RepresentsIsSafe(n, e[tmp := ivNode], plain[d]);
    RepresentsIsSafe(n, e - {c}, pd);
    RepresentsIsSafe(n, e[tmp := ivNode] - {c}, pd);
  }

  /** The two renames that go through and leave a long-named entry without its name. */
  ghost predicate LosesName(n: NameTransform, dirs: Dirs, plain: Dirs, d1: nat, p1: bytes, d2: nat, p2: bytes)
    requires d1 in plain && d2 in plain && d1 in dirs && d2 in dirs
  {
    && CanRename(plain, d1, p1, d2, p2) && IsValidName(p1) && IsLongContent(EntryName(n, p2, Iv(dirs[d2])))
    && ((d1, p1) == (d2, p2) || ReplacesLongDir(n, dirs, plain, d1, p1, d2, p2))
  }

  lemma LosesIs(n: NameTransform, dirs: Dirs, plain: Dirs, d1: nat, p1: bytes, d2: nat, p2: bytes)
    requires d1 in plain && d2 in plain && d1 in dirs && d2 in dirs && IsValidName(p1) && IsValidName(p2)
    ensures ReplacesLongDir(n, dirs, plain, d1, p1, d2, p2) ==>
      p1 in plain[d1] && IsLongContent(EntryName(n, p2, Iv(dirs[d2])))
    ensures LosesName(n, dirs, plain, d1, p1, d2, p2) <==>
      && CanRename(plain, d1, p1, d2, p2) && IsLongContent(EntryName(n, p2, Iv(dirs[d2])))
      && ((d1, p1) == (d2, p2) || ReplacesLongDir(n, dirs, plain, d1, p1, d2, p2))
  {
    hide EntryName, IsLongContent, BareAt, IsValidName, CanRename;
  }

  lemma LosesCan(n: NameTransform, dirs: Dirs, plain: Dirs, d1: nat, p1: bytes, d2: nat, p2: bytes)
    requires d1 in plain && d2 in plain && d1 in dirs && d2 in dirs
    ensures LosesName(n, dirs, plain, d1, p1, d2, p2) ==> CanRename(plain, d1, p1, d2, p2)
  {
    hide EntryName, IsLongContent, ReplacesLongDir, IsValidName, CanRename;
  }

  lemma RenamedToItself(plain: Dirs, d: nat, p: bytes)
    requires d in plain
    ensures p in plain[d] ==> Renamed(plain, d, p, d, p) == plain
  {
  }

  /** Writing a missing name file does not turn a harmless rename into one that loses a name, or the other way round. */
  lemma LosesNameKept(n: NameTransform, dirs: Dirs, dirs': Dirs, plain: Dirs, d1: nat, p1: bytes, d2: nat, p2: bytes)
    requires AllRepresent(n, dirs, plain) && d1 in dirs && d2 in dirs && IsValidName(p1) && IsValidName(p2)
    requires d2 in dirs' && Iv(dirs'[d2]) == Iv(dirs[d2])
    requires dirs' == dirs || (EntryName(n, p2, Iv(dirs[d2])) !in dirs[d2] && dirs' == dirs[d2 := dirs'[d2]])
    ensures d1 in dirs' && d1 in plain && d2 in plain && Iv(dirs'[d1]) == Iv(dirs[d1])
    ensures LosesName(n, dirs, plain, d1, p1, d2, p2) <==> LosesName(n, dirs', plain, d1, p1, d2, p2)
  {
    hide NameType, HashLongName, IsTemp, IsValidName, NameFile, EntryName, Represents, CanRename;
    EntryLookup(n, dirs[d2], plain[d2], p2);
  }

  lemma UnsafeSomewhere(n: NameTransform, dirs: Dirs, d: nat, h: bytes)
    requires d in dirs && h in dirs[d] && IsLongContent(h) && NameFile(h) !in dirs[d]
    ensures !AllSafe(n, dirs)
  {
    hide DirSafe;
    NamelessIsUnsafe(n, dirs[d], h);
  }

  /** The name file at the old place goes: that of the new entry, if it is the same or has none. */
  lemma NameLost(n: NameTransform, before: Dirs, after: Dirs, d1: nat, c1: bytes, d2: nat, c2: bytes)
    requires IsLongContent(c2) && d1 in before && d2 in before && c2 in before[d2]
    requires after == before || (IsLongContent(c1) && after == before[d1 := before[d1] - {NameFile(c1)}])
    requires NameFile(c2) !in before[d2] || ((d1, c1) == (d2, c2) && after == before[d1 := before[d1] - {NameFile(c1)}])
    ensures !AllSafe(n, after)
  {
    hide NameFile, AllSafe;
    NameFileIsOwn(c2);
    if IsLongContent(c1) { NameFileIsOwn(c1); }
    UnsafeSomewhere(n, after, d2, c2);
  }

  /** A directory that would take the place of an empty directory with a long name. */
  ghost predicate ReplacesLongDir(n: NameTransform, dirs: Dirs, plain: Dirs, d1: nat, p1: bytes, d2: nat, p2: bytes)
    requires d1 in plain && d2 in plain && d2 in dirs && IsValidName(p2)
  {
    && IsLongContent(EntryName(n, p2, Iv(dirs[d2])))
    && p1 in plain[d1] && plain[d1][p1].DirNode? && BareAt(dirs, plain, d2, p2)
  }

  /** A node that moves to another place: where it is then, and that every directory still represents its names. */
  lemma MoveStates(n: NameTransform, dirs: Dirs, plain: Dirs, d1: nat, p1: bytes, d2: nat, p2: bytes)
    requires AllRepresent(n, dirs, plain) && d1 in dirs && d2 in dirs && IsValidName(p1) && IsValidName(p2)
    requires var c2 := EntryName(n, p2, Iv(dirs[d2])); IsLongContent(c2) ==> GoodNameFile(n, dirs[d2], c2)
    ensures d1 in plain && d2 in plain
    ensures var c1, c2 := EntryName(n, p1, Iv(dirs[d1])), EntryName(n, p2, Iv(dirs[d2]));
      && (c1 in dirs[d1] <==> p1 in plain[d1]) && (c1 in dirs[d1] ==> dirs[d1][c1] == plain[d1][p1])
      && (c2 in dirs[d2] <==> p2 in plain[d2]) && (c2 in dirs[d2] ==> dirs[d2][c2] == plain[d2][p2])
      && !EmptyDirAt(dirs, d2, c2)
      && ((d1, c1) == (d2, c2) <==> (d1, p1) == (d2, p2))
      && (IsEmptyDir(plain, d2, p2) ==> c2 in dirs[d2] && dirs[d2][c2].DirNode?)
      && (BareAt(dirs, plain, d2, p2) ==> IsEmptyDir(plain, d2, p2))
      && ((d1, p1) == (d2, p2) && p1 in plain[d1] ==> Moved(dirs, d1, c1, d2, c2) == dirs)
      && (p1 in plain[d1] && (d1, p1) != (d2, p2) && !IsEmptyDir(plain, d2, p2) ==>
            var dirs' := Moved(dirs, d1, c1, d2, c2);
            && d1 in dirs' && d2 in dirs' && c1 !in dirs'[d1] && (forall d | d in dirs' :: d in dirs)
            && AllSafe(n, dirs') && AllRepresent(n, dirs', Renamed(plain, d1, p1, d2, p2)))
  {
    hide NameType, HashLongName, IsTemp, IsValidName, Represents, DirSafe, EntryName, AllSafe, AllRepresent, NameFile;
    Both(n, dirs, plain, d1);
    Both(n, dirs, plain, d2);
    var c1, c2 := EntryName(n, p1, Iv(dirs[d1])), EntryName(n, p2, Iv(dirs[d2]));
    EntryLookup(n, dirs[d1], plain[d1], p1);
    EntryLookup(n, dirs[d2], plain[d2], p2);
    if d1 == d2 { EntryNameInjective(n, p1, p2, Iv(dirs[d1])); }
    NeverBare(n, dirs, plain, d2, c2);
    if p1 in plain[d1] && (d1, p1) != (d2, p2) && !IsEmptyDir(plain, d2, p2) {
      var node := dirs[d1][c1];
      var dirs1, plain1 := dirs[d1 := dirs[d1] - {c1}], plain[d1 := plain[d1] - {p1}];
      EntryDrop(n, dirs, plain, d1, p1);
      EntryIsNotOwn(n, p1, Iv(dirs[d1]));
      IvKept(dirs[d1], c1);
      NameFilesKept(n, dirs[d1], dirs[d1] - {c1}, c1);
      EntryPut(n, dirs1, plain1, d2, p2, node);
    }
  }

  lemma IvKept(e: Dir, c: bytes)
    requires !Own(c)
    ensures Iv(e - {c}) == Iv(e) && NameType(c) != LongNameFilename
  {
  }

  /** A directory of the volume is never quite empty. */
  lemma NeverBare(n: NameTransform, dirs: Dirs, plain: Dirs, d: nat, c: bytes)
    requires AllRepresent(n, dirs, plain) && d in dirs
    ensures !EmptyDirAt(dirs, d, c)
  {
    hide Holds, OnlyHolds;
  }

  lemma MovedEntry(dirs: Dirs, d1: nat, c1: bytes, d2: nat, c2: bytes)
    requires d1 in dirs && d2 in dirs && c1 in dirs[d1] && c2 !in dirs[d2]
    ensures var dirs' := Moved(dirs, d1, c1, d2, c2);
      && d1 in dirs' && d2 in dirs' && c2 in dirs'[d2]
      && (NameFile(c2) !in dirs[d2] && NameFile(c2) != c2 ==> NameFile(c2) !in dirs'[d2])
  {
    hide NameFile;
  }

  /** Taking an empty directory out of the way leaves the node that is to move, and its place, alone. */
  lemma AfterRemoval(plain: Dirs, plain1: Dirs, d1: nat, p1: bytes, d2: nat, p2: bytes)
    requires d1 in plain && d2 in plain && p1 in plain[d1] && (d1, p1) != (d2, p2)
    requires IsEmptyDir(plain, d2, p2) && plain1 == WithoutDir(plain, d2, p2)
    ensures d1 in plain1 && d2 in plain1 && p1 in plain1[d1] && plain1[d1][p1] == plain[d1][p1]
    ensures p2 !in plain1[d2] && !IsEmptyDir(plain1, d2, p2)
    ensures Renamed(plain1, d1, p1, d2, p2) == Renamed(plain, d1, p1, d2, p2)
  {
  }

  function Renamed(plain: Dirs, d1: nat, p1: bytes, d2: nat, p2: bytes): Dirs
    requires d1 in plain && d2 in plain && p1 in plain[d1]
  {
    if (d1, p1) == (d2, p2) then plain
    else
      var base := if IsEmptyDir(plain, d2, p2) then WithoutDir(plain, d2, p2) else plain;
      PutNode(base, d1, p1, d2, p2, plain[d1][p1])
  }

  function PutNode(plain: Dirs, d1: nat, p1: bytes, d2: nat, p2: bytes, node: Node): Dirs
    requires d2 in plain
  {
    var taken := if d1 in plain then plain[d1 := plain[d1] - {p1}] else plain;
    taken[d2 := taken[d2][p2 := node]]
  }

  predicate EmptyDirAt(dirs: Dirs, d: nat, c: bytes)
    requires d in dirs
  {
    c in dirs[d] && dirs[d][c].DirNode? && dirs[d][c].id in dirs && dirs[dirs[d][c].id] == map[]
  }

  /** What rename answers: a directory does not move below itself, and only an empty one gives way to it. */
  function RenameErrno(dirs: Dirs, d1: nat, c1: bytes, d2: nat, c2: bytes): Errno
    requires d1 in dirs && d2 in dirs
  {
    if c1 !in dirs[d1] then ENOENT
    else if (d1, c1) == (d2, c2) then OK
    else
      var node := dirs[d1][c1];
      if node.DirNode? && d2 in Reach(dirs, {node.id}) then EINVAL
      else if c2 !in dirs[d2] then OK
      else if dirs[d2][c2].FileNode? then if node.FileNode? then OK else ENOTDIR
      else if node.FileNode? then EISDIR
      else if EmptyDirAt(dirs, d2, c2) then OK else ENOTEMPTY
  }

  /** rename: the node leaves d1/c1 and takes the place of whatever was at d2/c2. */
  function Moved(dirs: Dirs, d1: nat, c1: bytes, d2: nat, c2: bytes): Dirs
    requires d1 in dirs && d2 in dirs && c1 in dirs[d1]
  {
    if (d1, c1) == (d2, c2) then dirs
    else
      var node := dirs[d1][c1];
      var taken := dirs[d1 := dirs[d1] - {c1}];
      var put := taken[d2 := taken[d2][c2 := node]];
      if EmptyDirAt(dirs, d2, c2) then put - {dirs[d2][c2].id} else put
  }

  function WithFile(plain: Dirs, d: nat, p: bytes): Dirs
    requires d in plain
  {
    if p in plain[d] then plain else plain[d := plain[d][p := FileNode([])]]
  }

  // ---------- nothing is left behind ----------

  /** The directories once the name file of a long new name is written. */
  function Named(n: NameTransform, dirs: Dirs, d: nat, p: bytes): Dirs
    requires d in dirs && IsValidName(p)
  {
    var c := EntryName(n, p, Iv(dirs[d]));
    if IsLongContent(c) then dirs[d := dirs[d][NameFile(c) := FileNode(EncryptRaw(n, p, Iv(dirs[d])))]] else dirs
  }

  /** A new entry, after its name file if it is long. */
  lemma TidyCreate(n: NameTransform, dirs: Dirs, d: nat, p: bytes, node: Node)
    requires AllTidy(dirs) && d in dirs && IsValidName(p) && (node.DirNode? ==> node.id != 0)
    ensures var dirs1 := Named(n, dirs, d, p);
      AllTidy(dirs1[d := dirs1[d][EntryName(n, p, Iv(dirs[d])) := node]])
  {
    hide AllTidy, AllTidyBut, IsLongContent, Own, EntryName, NameFile, IsValidName, EncryptRaw;
    var c, dirs1 := EntryName(n, p, Iv(dirs[d])), Named(n, dirs, d, p);
    EntryIsNotOwn(n, p, Iv(dirs[d]));
    TidyButNothing(dirs, d);
    TidyNewName(dirs, d, c, EncryptRaw(n, p, Iv(dirs[d])));
    TidyPut(dirs1, d, Pending(c), c, node);
    assert Pending(c) - Pending(c) == {};
    TidyButNothing(dirs1[d := dirs1[d][c := node]], d);
  }

  /** An entry and its name file go. */
  lemma TidyRemove(n: NameTransform, dirs: Dirs, d: nat, p: bytes)
    requires AllTidy(dirs) && d in dirs && IsValidName(p)
    ensures var c := EntryName(n, p, Iv(dirs[d])); var dirs1 := dirs[d := dirs[d] - {c}];
      AllTidy(if IsLongContent(c) then dirs1[d := dirs1[d] - {NameFile(c)}] else dirs1)
  {
    hide AllTidy, AllTidyBut, IsLongContent, Own, EntryName, NameFile, IsValidName;
    var c := EntryName(n, p, Iv(dirs[d]));
    var dirs1 := dirs[d := dirs[d] - {c}];
    EntryIsNotOwn(n, p, Iv(dirs[d]));
    TidyDrop(dirs, d, c);
    if IsLongContent(c) {
      TidyNameGone(dirs1, d, c);
    } else {
      TidyButNothing(dirs1, d);
    }
  }

  lemma TidyMkdir(n: NameTransform, dirs: Dirs, d: nat, p: bytes, id: nat, iv: bytes)
    requires AllTidy(dirs) && d in dirs && IsValidName(p) && id != 0 && id != d
    ensures var dirs1 := Named(n, dirs, d, p);
      AllTidy(dirs1[d := dirs1[d][EntryName(n, p, Iv(dirs[d])) := DirNode(id)]]
                   [id := map[DIR_IV_FILENAME := FileNode(iv)]])
  {
    hide AllTidy, AllTidyBut, IsLongContent, Own, EntryName, NameFile, IsValidName;
    var dirs1 := Named(n, dirs, d, p);
    TidyCreate(n, dirs, d, p, DirNode(id));
    var dirs2 := dirs1[d := dirs1[d][EntryName(n, p, Iv(dirs[d])) := DirNode(id)]];
    TidyButNothing(dirs2, d);
    TidyDirs(dirs2, d, {}, id, iv);
    TidyButNothing(dirs2[id := map[DIR_IV_FILENAME := FileNode(iv)]], d);
  }

  /** A directory that looks empty is. */
  lemma TidyBareAt(n: NameTransform, dirs: Dirs, plain: Dirs, d: nat, p: bytes)
    requires AllTidy(dirs) && AllRepresent(n, dirs, plain) && d in dirs && d in plain && IsEmptyDir(plain, d, p)
    ensures BareAt(dirs, plain, d, p)
  {
    hide IsLongContent, Own, EntryName, NameFile, IsValidName, Represents, TidyBut;
    Both(n, dirs, plain, d);
    PlainNamesValid(n, dirs[d], plain[d]);
    EntryLookup(n, dirs[d], plain[d], p);
    var child := plain[d][p].id;
    Both(n, dirs, plain, child);
    TidyButNothing(dirs, d);
    NoWayToRoot(dirs, d, {}, d, EntryName(n, p, Iv(dirs[d])));
    assert TidyBut(dirs[child], child == 0, {});
    TidyIsBare(n, dirs[child]);
  }

  /** A directory goes with its entry and its name file. */
  lemma TidyRmdir(n: NameTransform, dirs: Dirs, d: nat, p: bytes, child: nat)
    requires AllTidy(dirs) && d in dirs && IsValidName(p) && child != d
    ensures var c := EntryName(n, p, Iv(dirs[d])); var dirs1 := dirs[d := dirs[d] - {c}] - {child};
      AllTidy(if IsLongContent(c) then dirs1[d := dirs1[d] - {NameFile(c)}] else dirs1)
  {
    hide IsLongContent, Own, EntryName, NameFile, IsValidName, AllTidy;
    var c := EntryName(n, p, Iv(dirs[d]));
    TidyRemove(n, dirs, d, p);
    var dirs1 := dirs[d := dirs[d] - {c}];
    TidyWithout(if IsLongContent(c) then dirs1[d := dirs1[d] - {NameFile(c)}] else dirs1, child);
    assert (dirs1 - {child})[d := dirs1[d] - {NameFile(c)}] == dirs1[d := dirs1[d] - {NameFile(c)}] - {child};
  }

  /** A node moves: its name file is left, that of its new entry is in use. */
  lemma TidyMove(dirs: Dirs, d1: nat, c1: bytes, d2: nat, c2: bytes)
    requires d1 in dirs && d2 in dirs && AllTidyBut(dirs, d2, Pending(c2)) && c1 in dirs[d1]
    requires (d1, c1) != (d2, c2) && !Own(c1) && !Own(c2) && !EmptyDirAt(dirs, d2, c2)
    ensures AllTidyBut(Moved(dirs, d1, c1, d2, c2), d1, Pending(c1))
  {
    hide AllTidy, AllTidyBut, Own, Pending, EmptyDirAt;
    var node := dirs[d1][c1];
    if node.DirNode? { NoWayToRoot(dirs, d2, Pending(c2), d1, c1); }
    var put := dirs[d2 := dirs[d2][c2 := node]];
    TidyPut(dirs, d2, Pending(c2), c2, node);
    assert Pending(c2) - Pending(c2) == {};
    TidyButNothing(put, d2);
    TidyDrop(put, d1, c1);
    assert put[d1] - {c1} == if d1 == d2 then (dirs[d1] - {c1})[c2 := node] else dirs[d1] - {c1};
    assert put[d1 := put[d1] - {c1}] == Moved(dirs, d1, c1, d2, c2);
  }

  lemma TidyWithout(dirs: Dirs, id: nat)
    requires AllTidy(dirs)
    ensures AllTidy(dirs - {id})
  {
    hide TidyBut;
  }

  // ---------- when a rename goes through ----------

  /** The plain directories lead nowhere the directories do not. */
  lemma PlainReach(n: NameTransform, dirs: Dirs, plain: Dirs, s: set<nat>)
    requires AllRepresent(n, dirs, plain)
    ensures Reach(plain, s) <= Reach(dirs, s)
  {
    hide AllRepresent, Represents, Reach, EntryName, IsValidName;
    forall t: set<nat> ensures Subdirs(plain, t) <= Subdirs(dirs, t) {
      forall x, p | x in t && x in plain && p in plain[x] && plain[x][p].DirNode?
        ensures plain[x][p].id in Subdirs(dirs, t)
      {
        KeysAgree(n, dirs, plain);
        Both(n, dirs, plain, x);
        PlainNamesValid(n, dirs[x], plain[x]);
        EntryLookup(n, dirs[x], plain[x], p);
        assert dirs[x][EntryName(n, p, Iv(dirs[x]))] == plain[x][p];
      }
    }
    ReachShrinks(plain, dirs, s);
  }

  /** What the system call answers, in terms of the plain directories: never more than they allow. */
  lemma RenameAnswer(n: NameTransform, dirs: Dirs, plain: Dirs, d1: nat, p1: bytes, d2: nat, p2: bytes)
    requires AllRepresent(n, dirs, plain) && d1 in dirs && d2 in dirs && IsValidName(p1) && IsValidName(p2)
    ensures d1 in plain && d2 in plain
    ensures var e := RenameErrno(dirs, d1, EntryName(n, p1, Iv(dirs[d1])), d2, EntryName(n, p2, Iv(dirs[d2])));
      && (e == OK ==> CanRename(plain, d1, p1, d2, p2) && ((d1, p1) != (d2, p2) ==> !IsEmptyDir(plain, d2, p2)))
      && (e == ENOTEMPTY ==> MeetsDir(plain, d1, p1, d2, p2))
      && e != EEXIST
  {
    hide AllRepresent, Represents, Reach, EntryName, IsValidName;
    RenameEnds(n, dirs, plain, d1, p1, d2, p2);
    if p1 in plain[d1] && plain[d1][p1].DirNode? {
      PlainReach(n, dirs, plain, {plain[d1][p1].id});
    }
  }

  /** A directory that could move, if only the directory in its place were empty. */
  ghost predicate MeetsDir(plain: Dirs, d1: nat, p1: bytes, d2: nat, p2: bytes)
    requires d1 in plain && d2 in plain
  {
    && p1 in plain[d1] && plain[d1][p1].DirNode? && (d1, p1) != (d2, p2) && d2 !in Reach(plain, {plain[d1][p1].id})
    && p2 in plain[d2] && plain[d2][p2].DirNode?
  }

  /** Files move, and take the place of files, whatever was left behind. */
  lemma FilesMove(n: NameTransform, dirs: Dirs, plain: Dirs, d1: nat, p1: bytes, d2: nat, p2: bytes)
    requires AllRepresent(n, dirs, plain) && d1 in dirs && d2 in dirs && IsValidName(p1) && IsValidName(p2)
    ensures d2 in plain && (FileAt(plain, d1, p1) && (p2 in plain[d2] ==> FileAt(plain, d2, p2)) ==>
      RenameErrno(dirs, d1, EntryName(n, p1, Iv(dirs[d1])), d2, EntryName(n, p2, Iv(dirs[d2]))) == OK)
  {
    hide AllRepresent, Represents, Reach, EntryName, IsValidName;
    RenameEnds(n, dirs, plain, d1, p1, d2, p2);
  }

  lemma CanRenameNames(plain: Dirs, d1: nat, p1: bytes, d2: nat, p2: bytes)
    requires d1 in plain && d2 in plain
    ensures CanRename(plain, d1, p1, d2, p2) ==> p1 in plain[d1] && IsValidName(p2)
  {
    hide Reach, IsValidName;
  }

  /** Removing the name file of an entry: there is a file to remove, or nothing changes. */
  lemma NameFileIsFile(n: NameTransform, e: Dir, plain: Dir, h: bytes)
    requires Represents(n, e, plain) && IsLongContent(h)
    ensures NameFile(h) in e ==> e[NameFile(h)].FileNode?
    ensures NameFile(h) !in e ==> e - {NameFile(h)} == e
  {
    hide Holds, IsTemp, NameType, NameFile, IsValidName, EntryName;
    NameFileIsOwn(h);
  }

  lemma PendingIs(c: bytes)
    ensures Pending(c) == if IsLongContent(c) then {NameFile(c)} else {}
  {
  }

  lemma TidyMoveAgain(n: NameTransform, dirs: Dirs, plain: Dirs, d1: nat, p1: bytes, d2: nat, p2: bytes)
    requires AllRepresent(n, dirs, plain) && AllTidy(dirs) && d1 in dirs && d2 in dirs && IsValidName(p1)
    requires IsValidName(p2)
    requires var c1, c2 := EntryName(n, p1, Iv(dirs[d1])), EntryName(n, p2, Iv(dirs[d2]));
      !IsLongContent(c2) && (d1, p1) != (d2, p2) && d1 in plain && p1 in plain[d1]
    ensures var c1, c2 := EntryName(n, p1, Iv(dirs[d1])), EntryName(n, p2, Iv(dirs[d2]));
      c1 in dirs[d1] && AllTidyBut(Moved(dirs, d1, c1, d2, c2), d1, Pending(c1))
  {
    hide AllRepresent, Represents, EntryName, IsValidName, AllTidy, AllTidyBut, Own, Moved;
    RenameEnds(n, dirs, plain, d1, p1, d2, p2);
    EntryIsNotOwn(n, p1, Iv(dirs[d1]));
    EntryIsNotOwn(n, p2, Iv(dirs[d2]));
    TidyButNothing(dirs, d2);
    TidyMove(dirs, d1, EntryName(n, p1, Iv(dirs[d1])), d2, EntryName(n, p2, Iv(dirs[d2])));
  }

  /** If all is tidy, it is exactly what they allow, or that there is a directory in the way that is empty. */
  lemma TidyAnswer(n: NameTransform, dirs: Dirs, plain: Dirs, d1: nat, p1: bytes, d2: nat, p2: bytes, d: nat,
                   pending: set<bytes>)
    requires AllRepresent(n, dirs, plain) && d1 in dirs && d2 in dirs && IsValidName(p1) && IsValidName(p2)
    requires AllTidyBut(dirs, d, pending) && forall f | f in pending :: NameType(f) == LongNameFilename
    ensures d1 in plain && d2 in plain
    ensures CanRename(plain, d1, p1, d2, p2) ==>
      RenameErrno(dirs, d1, EntryName(n, p1, Iv(dirs[d1])), d2, EntryName(n, p2, Iv(dirs[d2])))
        == if (d1, p1) != (d2, p2) && IsEmptyDir(plain, d2, p2) then ENOTEMPTY else OK
  {
    hide AllRepresent, Represents, Reach, EntryName, IsValidName, AllTidyBut, NameType;
    RenameEnds(n, dirs, plain, d1, p1, d2, p2);
    if p1 in plain[d1] && plain[d1][p1].DirNode? {
      TidyReach(n, dirs, plain, d, pending, {plain[d1][p1].id});
    }
  }

  /** Both ends of a rename, plain and encrypted. */
  lemma RenameEnds(n: NameTransform, dirs: Dirs, plain: Dirs, d1: nat, p1: bytes, d2: nat, p2: bytes)
    requires AllRepresent(n, dirs, plain) && d1 in dirs && d2 in dirs && IsValidName(p1) && IsValidName(p2)
    ensures d1 in plain && d2 in plain
    ensures var c1, c2 := EntryName(n, p1, Iv(dirs[d1])), EntryName(n, p2, Iv(dirs[d2]));
      && (c1 in dirs[d1] <==> p1 in plain[d1]) && (c1 in dirs[d1] ==> dirs[d1][c1] == plain[d1][p1])
      && (c2 in dirs[d2] <==> p2 in plain[d2]) && (c2 in dirs[d2] ==> dirs[d2][c2] == plain[d2][p2])
      && !EmptyDirAt(dirs, d2, c2) && ((d1, c1) == (d2, c2) <==> (d1, p1) == (d2, p2))
  {
    hide AllRepresent, Represents, EntryName, IsValidName, EmptyDirAt;
    Both(n, dirs, plain, d1);
    Both(n, dirs, plain, d2);
    EntryLookup(n, dirs[d1], plain[d1], p1);
    EntryLookup(n, dirs[d2], plain[d2], p2);
    if d1 == d2 { EntryNameInjective(n, p1, p2, Iv(dirs[d1])); }
    NeverBare(n, dirs, plain, d2, EntryName(n, p2, Iv(dirs[d2])));
  }

  /** With the empty directory out of the way, what could be renamed still can. */
  lemma CanStillRename(plain: Dirs, d1: nat, p1: bytes, d2: nat, p2: bytes)
    requires d1 in plain && d2 in plain && MeetsDir(plain, d1, p1, d2, p2) && IsEmptyDir(plain, d2, p2)
    requires IsValidName(p2)
    ensures CanRename(plain, d1, p1, d2, p2)
    ensures d1 in WithoutDir(plain, d2, p2) && d2 in WithoutDir(plain, d2, p2)
    ensures CanRename(WithoutDir(plain, d2, p2), d1, p1, d2, p2)
  {
    hide Reach, IsValidName;
    var plain1 := WithoutDir(plain, d2, p2);
    AfterRemoval(plain, plain1, d1, p1, d2, p2);
    forall t: set<nat> ensures Subdirs(plain1, t) <= Subdirs(plain, t) {}
    ReachShrinks(plain1, plain, {plain[d1][p1].id});
  }

  /** ... and if all is tidy they lead everywhere the directories do. */
  lemma TidyReach(n: NameTransform, dirs: Dirs, plain: Dirs, d: nat, pending: set<bytes>, s: set<nat>)
    requires AllRepresent(n, dirs, plain) && AllTidyBut(dirs, d, pending)
    requires forall f | f in pending :: NameType(f) == LongNameFilename
    ensures Reach(dirs, s) == Reach(plain, s)
  {
    hide AllRepresent, Represents, Reach, EntryName, IsValidName, AllTidyBut, NameType;
    forall t: set<nat> ensures Subdirs(dirs, t) <= Subdirs(plain, t) {
      forall x, c | x in t && x in dirs && c in dirs[x] && dirs[x][c].DirNode?
        ensures dirs[x][c].id in Subdirs(plain, t)
      {
        KeysAgree(n, dirs, plain);
        Both(n, dirs, plain, x);
        OwnIsNoDir(n, dirs, plain[x], d, pending, x, c);
        var p := PlainOfEntry(n, dirs[x], plain[x], c);
        assert plain[x][p] == dirs[x][c];
      }
    }
    ReachShrinks(dirs, plain, s);
    PlainReach(n, dirs, plain, s);
  }

  lemma PlainOfEntry(n: NameTransform, e: Dir, plain: Dir, c: bytes) returns (p: bytes)
    requires Represents(n, e, plain) && c in e && !Own(c)
    ensures p in plain && plain[p] == e[c]
  {
    hide Own, EntryName, IsValidName, GoodNameFile;
    p :| p in plain && IsValidName(p) && c == EntryName(n, p, Iv(e));
  }

  lemma OwnIsNoDir(n: NameTransform, dirs: Dirs, plain: Dir, d: nat, pending: set<bytes>, x: nat, c: bytes)
    requires x in dirs && Represents(n, dirs[x], plain) && c in dirs[x] && dirs[x][c].DirNode?
    requires AllTidyBut(dirs, d, pending) && forall f | f in pending :: NameType(f) == LongNameFilename
    ensures !Own(c)
  {
    hide EntryName, IsValidName, NameFile, IsTemp, NameType;
    assert NameType(c) == LongNameFilename ==> GoodNameFile(n, dirs[x], RemoveLongNameSuffix(c));
    if HasSuffix(c, LONG_NAME_SUFFIX) {
      SuffixRemoved(c);
      NameFileIsOwnIfLong(RemoveLongNameSuffix(c));
    }
    assert TidyBut(dirs[x], x == 0, if x == d then pending else {});
    assert Own(c) ==> c in pending || InUse(dirs[x], x == 0, c);
  }

  // ---------- facts about all directories at once ----------

  lemma AllRepresentIsSafe(n: NameTransform, dirs: Dirs, plain: Dirs)
    requires AllRepresent(n, dirs, plain)
    ensures AllSafe(n, dirs)
  {
    hide Represents, DirSafe;
    forall d | d in dirs ensures DirSafe(n, dirs[d]) { RepresentsIsSafe(n, dirs[d], plain[d]); }
  }

  lemma RepresentsHasIv(n: NameTransform, e: Dir, plain: Dir)
    requires Represents(n, e, plain)
    ensures HasIv(e)
  {
  }

  /** A long entry and its name file come together, and without the file there is no entry. */
  lemma EntryNameFile(n: NameTransform, e: Dir, plain: Dir, p: bytes)
    requires Represents(n, e, plain) && IsValidName(p) && IsLongContent(EntryName(n, p, Iv(e)))
    ensures EntryName(n, p, Iv(e)) in e ==> NameFile(EntryName(n, p, Iv(e))) in e
    ensures NameFile(EntryName(n, p, Iv(e))) in e ==> GoodNameFile(n, e, EntryName(n, p, Iv(e)))
  {
    hide NameType, HashLongName, IsTemp, IsValidName, EncryptRaw;
    EntryLookup(n, e, plain, p);
    if NameFile(EntryName(n, p, Iv(e))) in e {
      NameFileStores(n, e, plain, p);
    }
  }

  lemma NameFileFresh(n: NameTransform, e: Dir, plain: Dir, p: bytes)
    requires Represents(n, e, plain) && IsValidName(p) && IsLongContent(EntryName(n, p, Iv(e)))
    ensures NameFile(EntryName(n, p, Iv(e))) !in e ==> EntryName(n, p, Iv(e)) !in e
  {
    hide NameType, HashLongName, IsTemp, IsValidName, EncryptRaw, Represents;
    EntryNameFile(n, e, plain, p);
  }

  /** Writing the name file of an absent long entry: safe with any content, right with the encrypted name. */
  lemma NameFilePut(n: NameTransform, dirs: Dirs, plain: Dirs, d: nat, p: bytes, node: Node)
    requires AllRepresent(n, dirs, plain) && d in dirs && IsValidName(p)
    requires var h := EntryName(n, p, Iv(dirs[d])); IsLongContent(h) && h !in dirs[d]
    ensures var dirs' := dirs[d := dirs[d][NameFile(EntryName(n, p, Iv(dirs[d]))) := node]];
      AllSafe(n, dirs') && (node == FileNode(EncryptRaw(n, p, Iv(dirs[d]))) ==> AllRepresent(n, dirs', plain))
  {
    hide NameType, HashLongName, IsTemp, IsValidName, EncryptRaw, Represents, DirSafe, RemoveLongNameSuffix,
         HasSuffix, EntryName;
    var e := dirs[d];
    var h := EntryName(n, p, Iv(e));
    var e' := e[NameFile(h) := node];
    AllRepresentIsSafe(n, dirs, plain);
    SafeNameFileChange(n, e, e', h);
    NameFileIsOwn(h);
    EntryIsNotOwn(n, p, Iv(e));
    if node == FileNode(EncryptRaw(n, p, Iv(e))) {
      OwnChange(n, e, e', plain[d], NameFile(h));
    }
  }

  lemma NameFileDrop(n: NameTransform, dirs: Dirs, plain: Dirs, d: nat, h: bytes)
    requires AllRepresent(n, dirs, plain) && d in dirs && IsLongContent(h) && h !in dirs[d]
    ensures var dirs' := dirs[d := dirs[d] - {NameFile(h)}]; AllSafe(n, dirs') && AllRepresent(n, dirs', plain)
  {
    hide NameType, HashLongName, IsTemp, IsValidName, Represents, DirSafe, RemoveLongNameSuffix, HasSuffix;
    var e := dirs[d];
    NameFileIsOwn(h);
    OwnChange(n, e, e - {NameFile(h)}, plain[d], NameFile(h));
    AllRepresentIsSafe(n, dirs[d := e - {NameFile(h)}], plain);
  }

  lemma EntryPut(n: NameTransform, dirs: Dirs, plain: Dirs, d: nat, p: bytes, node: Node)
    requires AllRepresent(n, dirs, plain) && d in dirs && IsValidName(p)
    requires var c := EntryName(n, p, Iv(dirs[d])); IsLongContent(c) ==> GoodNameFile(n, dirs[d], c)
    ensures var dirs' := dirs[d := dirs[d][EntryName(n, p, Iv(dirs[d])) := node]];
      AllSafe(n, dirs') && AllRepresent(n, dirs', plain[d := plain[d][p := node]])
  {
    hide NameType, HashLongName, IsTemp, IsValidName, Represents, DirSafe, EntryName;
    PutEntry(n, dirs[d], plain[d], p, node);
    AllRepresentIsSafe(n, dirs[d := dirs[d][EntryName(n, p, Iv(dirs[d])) := node]], plain[d := plain[d][p := node]]);
  }

  function WithDir(plain: Dirs, d: nat, p: bytes, id: nat): Dirs
    requires d in plain
  {
    plain[d := plain[d][p := DirNode(id)]][id := map[]]
  }

  lemma EntryNameFileIsFile(n: NameTransform, e: Dir, plain: Dir, p: bytes)
    requires Represents(n, e, plain) && IsValidName(p) && IsLongContent(EntryName(n, p, Iv(e)))
    ensures var f := NameFile(EntryName(n, p, Iv(e)));
      (p in plain ==> f in e && e[f].FileNode?) && f != EntryName(n, p, Iv(e))
  {
    hide NameType, HashLongName, IsTemp, IsValidName, EncryptRaw, EntryName;
    EntryLookup(n, e, plain, p);
    NameFileIsOwn(EntryName(n, p, Iv(e)));
  }

  lemma EntryDrop(n: NameTransform, dirs: Dirs, plain: Dirs, d: nat, p: bytes)
    requires AllRepresent(n, dirs, plain) && d in dirs && IsValidName(p)
    ensures var dirs' := dirs[d := dirs[d] - {EntryName(n, p, Iv(dirs[d]))}];
      AllSafe(n, dirs') && AllRepresent(n, dirs', plain[d := plain[d] - {p}])
  {
    hide NameType, HashLongName, IsTemp, IsValidName, Represents, DirSafe, EntryName;
    DropEntry(n, dirs[d], plain[d], p);
    AllRepresentIsSafe(n, dirs[d := dirs[d] - {EntryName(n, p, Iv(dirs[d]))}], plain[d := plain[d] - {p}]);
  }

  lemma KeysAgree(n: NameTransform, dirs: Dirs, plain: Dirs)
    requires AllRepresent(n, dirs, plain)
    ensures dirs.Keys == plain.Keys
  {
  }

  lemma Both(n: NameTransform, dirs: Dirs, plain: Dirs, d: nat)
    requires AllRepresent(n, dirs, plain) && d in dirs
    ensures d in plain && Represents(n, dirs[d], plain[d])
    ensures forall k | k in plain :: k in dirs
  {
  }

  /** A directory added to all the others, before and after it has its IV. */
  lemma NewDir(n: NameTransform, base: Dirs, plain: Dirs, id: nat, iv: bytes)
    requires AllRepresent(n, base, plain) && |iv| == 16 && iv != Zeros(16)
    ensures AllSafe(n, base[id := map[]])
    ensures AllRepresent(n, base[id := map[DIR_IV_FILENAME := FileNode(iv)]], plain[id := map[]])
  {
    hide Represents, DirSafe;
    BareDir(n, iv);
    AllRepresentIsSafe(n, base, plain);
  }

  lemma EmptyIsSafe(n: NameTransform)
    ensures DirSafe(n, map[])
  {
  }

  lemma BareDir(n: NameTransform, iv: bytes)
    requires |iv| == 16 && iv != Zeros(16)
    ensures DirSafe(n, map[]) && Represents(n, map[DIR_IV_FILENAME := FileNode(iv)], map[])
    ensures forall node :: DirSafe(n, map[DIR_IV_FILENAME := node])
  {
    hide NameType, GoodNameFile;
    OwnKinds(DIR_IV_FILENAME);
  }
}
