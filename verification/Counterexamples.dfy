/**
 Concrete runs on which the code does not do what one would expect of it. The exact conditions
 are proved where the operations are; here each one is proved to fail.
 */
module Counterexamples {
  import opened Bytes
  import opened Offsets
  import opened ContentEnc
  import opened DiskImage
  import opened EncFile
  import opened Names
  import opened DirImage
  import opened DirOps
  import opened DirTree
  import opened Tidy
  import opened DirCache
  import Handles
  import opened PathResolution
  import opened ClientRuns
  import VolumeRuns
  import Session
  import S = Sync
  import SyncRuns
  import VolumeTree
  import T = SyncTree

  /** A name long enough to be hashed. */
  function LongName(): bytes { seq(200, _ => 97) }

  lemma LongNameIsHashed(n: NameTransform, iv: bytes)
    requires n.longNameMax == NAME_MAX
    ensures IsValidName(LongName()) && IsLongContent(EntryName(n, LongName(), iv))
  {
    hide EntryName;
    assert LongName()[0] == 97 && |LongName()| == 200;
    HashedFrom176(n, LongName(), iv);
  }

  function SomeIv(): bytes { seq(16, _ => 1) }

  lemma SomeIvIsGood()
    ensures |SomeIv()| == 16 && SomeIv() != Zeros(16)
  {
    assert SomeIv()[0] == 1;
  }

  // ---------- names ----------

  /** Create a file with a long name and rename it to itself: the name file is gone, the entry is not. */
  method RenameToItself(n: NameTransform, conf: bytes, rnd: bytes) returns (v: Volume, renamed: bool)
    requires n.longNameMax == NAME_MAX
    ensures v.n == n && !v.faulty && renamed && !AllSafe(n, v.dirs)
  {
    hide AllSafe, Represents, EntryName, IsValidName, IsLongContent, NameFile, LongName, SomeIv, IsTemp, DirSafe,
         AllTidy, Reach, AllRepresent, SafeTrace, IvsLess, IsHashed;
    SomeIvIsGood();
    OwnIv();
    v := new Volume(n, false, SomeIv(), conf);
    var p := LongName();
    LongNameIsHashed(n, Iv(v.dirs[0]));
    var created := v.OpenWrite(0, p);
    LongNameIsHashed(n, Iv(v.dirs[0]));
    TidyNoTemp(v.dirs, 0, TEMP_PREFIX + rnd);
    renamed := v.Rename(0, p, 0, p, rnd);
  }

  predicate TwoIn(plain: Dirs, id: nat, id2: nat) {
    && 0 in plain && LongName() in plain[0] && [97] in plain[0] && id in plain && id2 in plain && id2 != 0
    && plain[0][LongName()] == DirNode(id) && plain[0][[97]] == DirNode(id2) && plain[id] == plain[id2] == map[]
  }

  /** Two empty directories, one with a long name. */
  method TwoDirs(n: NameTransform, conf: bytes) returns (v: Volume, id: nat, id2: nat)
    requires n.longNameMax == NAME_MAX
    ensures fresh(v) && v.n == n && !v.faulty && 0 in v.dirs && TwoIn(v.plain, id, id2)
    ensures v.Valid() && AllTidy(v.dirs) && BareAt(v.dirs, v.plain, 0, LongName())
  {
    hide AllSafe, Represents, EntryName, IsValidName, IsLongContent, NameFile, LongName, SomeIv, IsTemp, DirSafe,
         AllTidy, Reach, AllRepresent, SafeTrace, IvsLess, IsHashed;
    SomeIvIsGood();
    OwnIv();
    v := new Volume(n, false, SomeIv(), conf);
    var p, a := LongName(), [97];
    LongNameIsHashed(n, Iv(v.dirs[0]));
    assert IsValidName(a) by { AIsValid(); }
    id := v.nextId;
    var made := v.MakeDir(0, p, SomeIv());
    assert v.dirs[id].Keys == {DIR_IV_FILENAME};
    id2 := v.nextId;
    assert p != a by { LongIsLonger(); }
    made := v.MakeDir(0, a, SomeIv());
    LongNameIsHashed(n, Iv(v.dirs[0]));
  }

  /** Rename an empty directory onto an empty one with a long name: it goes through, and the name file is gone. */
  method RenameOntoLongDir(n: NameTransform, conf: bytes, rnd: bytes) returns (v: Volume, renamed: bool)
    requires n.longNameMax == NAME_MAX
    ensures v.n == n && !v.faulty && renamed && !AllSafe(n, v.dirs)
  {
    hide AllSafe, Represents, EntryName, IsValidName, IsLongContent, NameFile, LongName, IsTemp, DirSafe, AllTidy,
         Reach, AllRepresent, SafeTrace, IvsLess, IsHashed, BareAt;
    OwnIv();
    var id, id2;
    v, id, id2 := TwoDirs(n, conf);
    LongNameIsHashed(n, Iv(v.dirs[0]));
    assert IsValidName([97]) by { AIsValid(); }
    assert LongName() != [97] by { LongIsLonger(); }
    TidyNoTemp(v.dirs, 0, TEMP_PREFIX + rnd);
    NothingBelow(v.plain, id2);
    renamed := v.Rename(0, [97], 0, LongName(), rnd);
  }

  lemma AIsValid()
    ensures IsValidName([97])
  {
  }

  lemma LongIsLonger()
    ensures LongName() != [97]
  {
    assert |LongName()| == 200;
  }

  lemma NothingBelow(dirs: Dirs, id: nat)
    requires id in dirs && dirs[id] == map[]
    ensures Reach(dirs, {id}) == {id}
  {
    hide Reach;
    ReachIsLeast(dirs, {id}, {id});
  }

  // ---------- contents ----------

  /** Write a byte, and another one two blocks on: the file is lost, if the cipher rejects zero-extended blocks. */
  method WriteFarPastTheEnd(be: ContentEnc, numCPU: nat) returns (fd: BackingFile)
    requires RejectsZeroExtension(be.aead) && 1 < be.plainBS && Addressable(be, 2 * be.plainBS + 1)
    ensures !Intact(be, fd.data)
  {
    hide Intact, Addressable, Plain, RejectsZeroExtension;
    fd := new BackingFile([]);
    Session.EmptyIsIntact(be);
    Session.EmptyInReach(be, 0);
    AddressableBelow(be, 1, 2 * be.plainBS + 1);
    var f := new OpenFile(be, fd, numCPU);
    var _ := f.WriteFile(0, [7]);
    TwoBlocksOn(be);
    Session.WriteAnywhere(f, 2 * be.plainBS, [7]);
  }

  lemma TwoBlocksOn(be: ContentEnc)
    requires 1 < be.plainBS
    ensures !StartsInReach(be, 1, 2 * be.plainBS)
  {
    DivModUnique(1, be.plainBS, 0, 1);
    DivModUnique(2 * be.plainBS, be.plainBS, 2, 0);
  }

  /** Write a byte, truncate to zero, write it again, all on one handle: the file is lost. */
  method TruncateAndWriteAgain(be: ContentEnc, numCPU: nat) returns (fd: BackingFile)
    requires Addressable(be, 1)
    ensures !Intact(be, fd.data)
  {
    hide Intact, Addressable, Plain;
    fd := new BackingFile([]);
    Session.EmptyIsIntact(be);
    Session.EmptyInReach(be, 0);
    var f := new OpenFile(be, fd, numCPU);
    var _ := f.WriteFile(0, [7]);
    Session.TruncateToZeroThenWrite(f, 0, [7]);
  }

  // ---------- handles ----------

  /** Two files are opened and the first one closed: closing the volume crashes. */
  method CloseWithAGap() returns (crashed: bool)
    ensures crashed
  {
    var t := new Handles.FileTable();
    var a := t.RegisterFileHandle(3, []);
    var b := t.RegisterFileHandle(4, []);
    var _ := t.CloseFile(a);
    crashed := t.Close();
  }

  // ---------- the directory cache ----------

  const A: bytes := [97]
  const B: bytes := [98]

  lemma OneDirectory(n: NameTransform, plain: Dirs, id: nat, later: nat, rnd: bytes)
    requires 0 != id < later && plain == WithDir(map[0 := map[]], 0, A, id)
    ensures IsTree(plain, later) && PlainOpen(plain, []) == Some(ROOT) && PlainOpen(plain, [A]) == Some(id)
    ensures [A] != [B] && IsDir(plain, [A]) && CanRenamePath(n, plain, [A], [B], rnd)
  {
    hide Reach;
    assert [A][..0] == [] && [B][..0] == [] && [A][0] != [B][0];
    NothingBelow(plain, id);
  }

  lemma MadeA(n: NameTransform, before: Dirs, made: bool, after: Dirs, id: nat)
    requires before == map[0 := map[]]
    requires VolumeRuns.PlainStep(n, false, before, VolumeRuns.MakeDir(0, A, SomeIv()), made, after)
    ensures after != before
  {
    hide SomeIv;
    SomeIvIsGood();
    AIsValid();
  }

  /** A directory is opened and goes into the cache. */
  method OpenAndStore(c: Client, path: Path, d: nat)
    requires c.Valid() && PlainOpen(c.r.v.plain, path) == Some(d) && !Has(c.r.cache.entries[..], path)
    modifies c.r.cache`nextIndex, c.r.cache.entries
    ensures c.Valid() && Has(c.r.cache.entries[..], path) && c.r.cache.entries[old(c.r.cache.nextIndex)].Used?
    ensures c.r.cache.entries[old(c.r.cache.nextIndex)].path == path
    ensures c.r.cache.nextIndex == (old(c.r.cache.nextIndex) + 1) % DIR_CACHE_SIZE
    ensures forall i | 0 <= i < DIR_CACHE_SIZE && i != old(c.r.cache.nextIndex) ::
      c.r.cache.entries[i] == old(c.r.cache.entries[i])
  {
    hide AllRepresent, AllTidy, SafeTrace, IsTree, PlainOpen, Coherent, OpenDir, Distinct;
    OpenIsPlain(c.r.v.n, c.r.v.dirs, c.r.v.plain, path);
    ghost var slots, at := c.r.cache.entries[..], c.r.cache.nextIndex;
    var iv := Iv(c.r.v.dirs[d]);
    assert path < path + [A];
    Stored(c.r.v.n, c.r.v.dirs, slots, slots, at, Used(path, d, iv), path + [A]);
    c.r.cache.Store(path, d, iv);
    assert c.r.cache.entries[..][at] == Used(path, d, iv);
  }

  /** A directory a is cached, as it is after a look into it, and renamed to b: the cache still has it under a. */
  method RenameLeavesStaleEntry(n: NameTransform, conf: bytes, rnd: bytes) returns (c: Client, renamed: bool)
    ensures renamed && c.r.v.Valid() && c.r.cache.Valid() && !c.Valid() && HoldsBelow(c.r.cache.entries[..], [A])
    ensures !Coherent(c.r.v.n, c.r.v.dirs, c.r.cache.entries[..])
  {
    hide AllRepresent, AllTidy, SafeTrace, IsTree, VolumeRuns.PlainStep, IvsKept, SomeIv, IsDir, PlainOpen, Coherent,
         OpenDir, Distinct, Above, WithDir, CanRenamePath, RenameStep;
    SomeIvIsGood();
    var v := new Volume(n, false, SomeIv(), conf);
    ghost var plain0: Dirs := v.plain;
    var id := v.nextId;
    var made := VolumeRuns.Perform(v, VolumeRuns.MakeDir(0, A, SomeIv()));
    MadeA(n, plain0, made, v.plain, id);
    OneDirectory(n, v.plain, id, v.nextId, rnd);
    c := new Client(v, false);
    OpenAndStore(c, [], ROOT);
    OpenAndStore(c, [A], id);
    assert [A][..0] == [] && [B][..0] == [];
    renamed := c.RenamePath([A], [B], rnd);
  }

  // ---------- mirror ----------

  /** A tree of one file. */
  function OneFile(name: bytes, content: bytes): T.Tree { map[[name] := T.FileEntry(content, 0)] }

  const CHECKSUM: T.Opts := T.Opts(0, false, false, true)

  lemma OneFileFits(name: bytes, was: bytes, now: bytes)
    ensures T.WellFormed(OneFile(name, was)) && T.NoConflict(OneFile(name, was), OneFile(name, now), [])
  {
    forall q | q in OneFile(name, was) ensures q == [name] && q != [] && T.Parent(q) == [] {}
    forall rel | rel in OneFile(name, now) ensures rel == [name] && [] + rel == rel {}
  }

  lemma OneFileIsWalked(side: S.Side, name: bytes, content: bytes)
    requires IsValidName(name)
    ensures SyncRuns.IsWalk(OneFile(name, content), [[name]]) && SyncRuns.Listed(side, OneFile(name, content))
  {
    hide IsValidName;
    assert [[name]][..0] == [];
    assert T.Parent([name]) == [];
  }

  lemma NothingDone(o: T.Opts, t0: T.Tree, src: T.Tree)
    requires !o.dryRun
    ensures T.Partial(o, t0, src, [], {}) == t0
  {
    SyncRuns.ProgressNone(o, t0, src, []);
    S.WithDirsNone(t0);
  }

  /** A file with a long name is in the volume and changes: pushing it again dies, and leaves it as it was. */
  method PushLongNameAgain(n: NameTransform, conf: bytes, was: bytes, now: bytes)
    returns (died: bool, dst: S.Destination)
    requires n.longNameMax == NAME_MAX && was != now
    ensures died && dst.Valid() && dst.side == S.Volume(n) && dst.tree == OneFile(LongName(), was)
  {
    hide LongName, T.WellFormed, T.NoConflict, SyncRuns.IsWalk, SyncRuns.Listed, T.Partial, S.Verdict, S.Nameable,
         T.WithDirs, S.Mirrors;
    var name, side := LongName(), S.Volume(n);
    LongNameIsHashed(n, SomeIv());
    OneFileFits(name, was, now);
    OneFileFits(name, now, now);
    OneFileIsWalked(side, name, now);
    S.NothingToName(side, OneFile(name, was));
    NothingDone(CHECKSUM, OneFile(name, was), OneFile(name, now));
    var c := VolumeWithFile(n, conf, name, was);
    dst := new S.Destination.InVolume(c, OneFile(name, was));
    assert [] + [name] == [name];
    SyncRuns.FailsAtLongEntry(CHECKSUM, n, OneFile(name, was), [] + [name], OneFile(name, now)[[name]], SomeIv());
    var counted;
    ghost var done;
    died, counted, done := SyncRuns.EncryptSync(CHECKSUM, [], OneFile(name, now), [[name]], dst);
    assert done == {};
  }

  method NewClient(n: NameTransform, conf: bytes) returns (c: Client)
    ensures S.Mirrors(c, map[]) && c.r.v.n == n && fresh({c.r.v, c.r.cache, c.r.cache.entries})
  {
    hide AllRepresent, AllTidy, SafeTrace, IsTree, SomeIv, Coherent, Distinct, VolumeTree.Shows;
    SomeIvIsGood();
    var v := new Volume(n, false, SomeIv(), conf);
    VolumeTree.NewVolume();
    IsLater(v.plain, v.nextId);
    c := new Client(v, true);
  }

  /** A new volume, and one file made in it. */
  method VolumeWithFile(n: NameTransform, conf: bytes, name: bytes, content: bytes) returns (c: Client)
    requires IsValidName(name)
    ensures S.Mirrors(c, OneFile(name, content)) && c.r.v.n == n && fresh({c.r.v, c.r.cache, c.r.cache.entries})
  {
    hide IsTree, IsValidName, Coherent, Distinct, PathStep, VolumeTree.Shows, IsHashed, VolumeRuns.Sound, OneFile;
    c := NewClient(n, conf);
    ghost var plain0, id0 := c.r.v.plain, c.r.v.nextId;
    var created := c.Do(Create([name]));
    AtTheTop([name], name, content);
    VolumeTree.CreateShown(n, plain0, id0, map[], [name], created, c.r.v.plain);
    VolumeTree.SameKinds(c.r.v.plain, map[[name] := T.FileEntry([], 0)], OneFile(name, content));
  }

  lemma AtTheTop(p: Path, name: bytes, content: bytes)
    requires p == [name]
    ensures T.Parent(p) == [] && p[|p| - 1] == name && map[][p := T.FileEntry(content, 0)] == OneFile(name, content)
    ensures OneFile(name, content).Keys == {[name]} && OneFile(name, content)[[name]].FileEntry?
  {
  }

  lemma IsLater(plain: Dirs, nextId: nat)
    requires plain == map[ROOT := map[]] && 0 < nextId
    ensures IsTree(plain, nextId)
  {
  }
}
