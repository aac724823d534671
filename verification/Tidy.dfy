/**
 What a volume never leaves behind unless the operating system fails: name files without their
 entry, directory IVs on their way out, or entries that lead back to the root.
 */
module Tidy {
  import opened Bytes
  import opened Names
  import opened DirImage

  /** An entry of the volume's own is the directory IV, the configuration of the root, or the name file of an entry. */
  predicate InUse(e: Dir, isRoot: bool, c: bytes)
    requires c in e
  {
    || c == DIR_IV_FILENAME
    || (isRoot && c == CONF_NAME && e[c].FileNode?)
    || (HasSuffix(c, LONG_NAME_SUFFIX) && IsLongContent(RemoveLongNameSuffix(c)) && RemoveLongNameSuffix(c) in e)
  }

  ghost predicate TidyBut(e: Dir, isRoot: bool, x: set<bytes>) {
    && (forall c | c in e && e[c].DirNode? :: e[c].id != 0)
    && (forall c | c in e && Own(c) && c !in x :: InUse(e, isRoot, c))
  }

  /** All is tidy but for the entries x of directory d. */
  ghost predicate AllTidyBut(dirs: Dirs, d: nat, x: set<bytes>) {
    forall k | k in dirs :: TidyBut(dirs[k], k == 0, if k == d then x else {})
  }

  ghost predicate AllTidy(dirs: Dirs) { forall k | k in dirs :: TidyBut(dirs[k], k == 0, {}) }

  /** The name file an entry needs, if any. */
  function Pending(c: bytes): (x: set<bytes>)
    ensures forall f | f in x :: NameType(f) == LongNameFilename
  {
    NameFileIsOwnIfLong(c);
    if IsLongContent(c) then {NameFile(c)} else {}
  }

  lemma NameFileIsOwnIfLong(c: bytes)
    ensures IsLongContent(c) ==> NameType(NameFile(c)) == LongNameFilename
  {
    if IsLongContent(c) { NameFileIsOwn(c); }
  }

  lemma TidyButNothing(dirs: Dirs, d: nat)
    ensures AllTidyBut(dirs, d, {}) <==> AllTidy(dirs)
  {
    hide TidyBut;
  }

  lemma TidyButMore(dirs: Dirs, d: nat, x: set<bytes>, y: set<bytes>)
    requires AllTidyBut(dirs, d, x) && x <= y
    ensures AllTidyBut(dirs, d, y)
  {
    hide InUse, Own;
  }

  lemma TidyChange(dirs: Dirs, d: nat, e: Dir, x: set<bytes>, y: set<bytes>)
    requires AllTidyBut(dirs, d, x) && (TidyBut(e, d == 0, y))
    ensures AllTidyBut(dirs[d := e], d, y)
  {
    hide TidyBut;
  }

  /** A new entry, whose name file may be there already. */
  lemma TidyPut(dirs: Dirs, d: nat, x: set<bytes>, c: bytes, node: Node)
    requires AllTidyBut(dirs, d, x) && d in dirs && !Own(c) && (node.DirNode? ==> node.id != 0)
    ensures AllTidyBut(dirs[d := dirs[d][c := node]], d, x - Pending(c))
  {
    hide Own, NameType;
    var e, y := dirs[d], x - Pending(c);
    var e2 := e[c := node];
    if IsLongContent(c) { NameFileIsOwn(c); }
    forall f | f in e2 && Own(f) && f !in y ensures InUse(e2, d == 0, f) {
      assert f !in x ==> InUse(e, d == 0, f);
    }
    TidyChange(dirs, d, e2, x, y);
  }

  /** An entry goes; its name file is still there. */
  lemma TidyDrop(dirs: Dirs, d: nat, c: bytes)
    requires AllTidy(dirs) && d in dirs && !Own(c)
    ensures AllTidyBut(dirs[d := dirs[d] - {c}], d, Pending(c))
  {
    hide Own, NameType, NameFile;
    var e, y := dirs[d], Pending(c);
    forall f | f in e - {c} && Own(f) && f !in y ensures InUse(e - {c}, d == 0, f) {
      assert InUse(e, d == 0, f);
      if HasSuffix(f, LONG_NAME_SUFFIX) { SuffixRemoved(f); }
    }
    TidyButNothing(dirs, d);
    TidyChange(dirs, d, e - {c}, {}, y);
  }

  /** A name file has its entry. */
  lemma TidyNameHasEntry(dirs: Dirs, d: nat, h: bytes)
    requires AllTidy(dirs) && d in dirs && IsLongContent(h) && NameFile(h) in dirs[d]
    ensures h in dirs[d]
  {
    hide Own, NameFile;
    NameFileIsOwn(h);
    assert InUse(dirs[d], d == 0, NameFile(h));
  }

  /** A name file comes before its entry. */
  lemma TidyNewName(dirs: Dirs, d: nat, h: bytes, data: bytes)
    requires AllTidy(dirs) && d in dirs
    ensures AllTidyBut(dirs[d := dirs[d][NameFile(h) := FileNode(data)]], d, {NameFile(h)})
  {
    hide Own, NameType, NameFile;
    var e := dirs[d];
    var e2 := e[NameFile(h) := FileNode(data)];
    forall f | f in e2 && Own(f) && f !in {NameFile(h)} ensures InUse(e2, d == 0, f) {
      assert InUse(e, d == 0, f);
    }
    TidyButNothing(dirs, d);
    TidyChange(dirs, d, e2, {}, {NameFile(h)});
  }

  /** A name file goes. */
  lemma TidyNameGone(dirs: Dirs, d: nat, h: bytes)
    requires AllTidyBut(dirs, d, {NameFile(h)}) && d in dirs && IsLongContent(h)
    ensures AllTidy(dirs[d := dirs[d] - {NameFile(h)}])
  {
    hide Own, NameFile;
    var e := dirs[d];
    NameFileIsOwn(h);
    forall f | f in e - {NameFile(h)} && Own(f) ensures InUse(e - {NameFile(h)}, d == 0, f) {
      assert InUse(e, d == 0, f);
    }
    TidyChange(dirs, d, e - {NameFile(h)}, {NameFile(h)}, {});
    TidyButNothing(dirs[d := e - {NameFile(h)}], d);
  }

  /** The name file of an entry that is there is in use. */
  lemma TidyPresent(dirs: Dirs, d: nat, c: bytes)
    requires AllTidyBut(dirs, d, Pending(c)) && d in dirs && c in dirs[d]
    ensures AllTidy(dirs)
  {
    hide Own;
    if IsLongContent(c) { NameFileIsOwn(c); }
    forall f | f in dirs[d] && Own(f) ensures InUse(dirs[d], d == 0, f) {
      assert f !in Pending(c) ==> InUse(dirs[d], d == 0, f);
    }
  }

  lemma NoWayToRoot(dirs: Dirs, x: nat, pending: set<bytes>, d: nat, c: bytes)
    requires AllTidyBut(dirs, x, pending) && d in dirs && c in dirs[d] && dirs[d][c].DirNode?
    ensures dirs[d][c].id != 0
  {
    hide InUse, Own;
  }

  /** No directory IV is on its way out. */
  lemma TidyNoTemp(dirs: Dirs, d: nat, c: bytes)
    requires AllTidy(dirs) && d in dirs && IsTemp(c)
    ensures c !in dirs[d]
  {
    hide IsTemp, NameFile;
    OwnKinds(c);
    if HasSuffix(c, LONG_NAME_SUFFIX) {
      SuffixRemoved(c);
      NameFileIsOwnIfLong(RemoveLongNameSuffix(c));
    }
    assert c in dirs[d] ==> InUse(dirs[d], d == 0, c);
  }

  /** A directory comes with its IV, or goes. */
  lemma TidyDirs(dirs: Dirs, d: nat, x: set<bytes>, id: nat, iv: bytes)
    requires AllTidyBut(dirs, d, x)
    ensures AllTidyBut(dirs - {id}, d, x)
    ensures id != d ==> AllTidyBut(dirs[id := map[DIR_IV_FILENAME := FileNode(iv)]], d, x)
  {
    hide Own, NameType;
  }

  /** Without plain names there is nothing but the directory IV. */
  lemma TidyIsBare(n: NameTransform, e: Dir)
    requires Represents(n, e, map[]) && TidyBut(e, false, {})
    ensures e.Keys == {DIR_IV_FILENAME} && |e.Keys| == 1
  {
    hide NameType, EntryName, IsValidName, GoodNameFile, IsTemp;
    forall c | c in e ensures c == DIR_IV_FILENAME {
      if c != DIR_IV_FILENAME {
        assert Own(c) && InUse(e, false, c);
        LongIsNotOwn(RemoveLongNameSuffix(c));
      }
    }
    assert e.Keys == {DIR_IV_FILENAME};
  }

  lemma LongIsNotOwn(h: bytes)
    requires IsLongContent(h)
    ensures !Own(h)
  {
    OwnKinds(h);
  }
}
