/**
 Whole runs of a client that names files by path: the path is resolved through the cache, which may be
 emptied at any moment, and the operation is carried out call by call in the directory it led to
 (helpers.go, dircache.go, directory.go, file.go). Against plain directories, walked by plain names.
 */
module ClientRuns {
  import opened Bytes
  import opened Names
  import opened DirImage
  import opened Tidy
  import opened DirOps
  import opened DirCache
  import opened PathResolution
  import VolumeRuns

  // ---------- walking plain directories ----------

  function PlainOpen(plain: Dirs, path: Path): Option<nat> {
    if path == [] then if ROOT in plain then Some(ROOT) else None
    else
      var d := PlainOpen(plain, path[..|path| - 1]);
      if d.None? then None else SubDir(plain, d.value, path[|path| - 1])
  }

  /** Walking the encrypted directories, with an IV to read in each, is walking the plain ones. */
  lemma {:induction false} OpenIsPlain(n: NameTransform, dirs: Dirs, plain: Dirs, path: Path)
    requires AllRepresent(n, dirs, plain)
    ensures OpenDir(n, dirs, path) == PlainOpen(plain, path)
    ensures OpenDir(n, dirs, path).Some? ==>
      OpenDir(n, dirs, path).value in dirs && OpenDir(n, dirs, path).value in plain
    decreases |path|
  {
    hide AllRepresent, Represents, EncryptAndHashName, EntryName, HasIv, IsValidName, Iv;
    KeysAgree(n, dirs, plain);
    if path == [] {
      if ROOT in dirs {
        Both(n, dirs, plain, ROOT);
        RepresentsHasIv(n, dirs[ROOT], plain[ROOT]);
      }
    } else {
      var up, x := path[..|path| - 1], path[|path| - 1];
      OpenIsPlain(n, dirs, plain, up);
      if OpenDir(n, dirs, up).Some? {
        StepIsPlain(n, dirs, plain, OpenDir(n, dirs, up).value, x);
      }
    }
  }

  /** One step: the entry of a plain name, and the directory it leads to. */
  lemma StepIsPlain(n: NameTransform, dirs: Dirs, plain: Dirs, d: nat, x: bytes)
    requires AllRepresent(n, dirs, plain) && d in dirs
    ensures d in plain && HasIv(dirs[d])
    ensures var r := EncryptAndHashName(n, x, Iv(dirs[d]));
      && (r.NameOK? <==> IsValidName(x)) && (x in plain[d] ==> r.NameOK?)
      && (r.NameOK? ==> r.cName == EntryName(n, x, Iv(dirs[d])) && SubDir(dirs, d, r.cName) == SubDir(plain, d, x))
      && (r.NameOK? ==> (r.cName in dirs[d] <==> x in plain[d]))
    ensures SubDir(plain, d, x).Some? ==> var s := SubDir(plain, d, x).value; s in dirs && HasIv(dirs[s])
  {
    hide AllRepresent, Represents, EntryName, HasIv, IsValidName, Iv;
    KeysAgree(n, dirs, plain);
    Both(n, dirs, plain, d);
    RepresentsHasIv(n, dirs[d], plain[d]);
    PlainNamesValid(n, dirs[d], plain[d]);
    NameOKIsValid(n, x, Iv(dirs[d]));
    if IsValidName(x) {
      EntryLookup(n, dirs[d], plain[d], x);
    }
    if SubDir(plain, d, x).Some? {
      var s := SubDir(plain, d, x).value;
      Both(n, dirs, plain, s);
      RepresentsHasIv(n, dirs[s], plain[s]);
    }
  }

  /** Every directory has at most one entry that leads to it, the root none, and numbers from nextId on are free. */
  ghost predicate IsTree(plain: Dirs, nextId: nat) {
    && (forall d | d in plain :: d < nextId)
    && ROOT < nextId
    && (forall d, c | d in plain && c in plain[d] && plain[d][c].DirNode? :: ROOT != plain[d][c].id < nextId)
    && (forall d, c, d', c' |
            && d in plain && c in plain[d] && plain[d][c].DirNode?
            && d' in plain && c' in plain[d'] && plain[d'][c'].DirNode?
          :: plain[d][c].id == plain[d'][c'].id ==> d == d' && c == c')
  }

  // ---------- what one operation leaves of the walks ----------

  /** Every directory is still there, with its directories. */
  ghost predicate Extends(a: Dirs, b: Dirs) {
    forall d | d in a :: d in b && forall p | p in a[d] && a[d][p].DirNode? :: p in b[d] && b[d][p] == a[d][p]
  }

  lemma {:induction false} ExtendsKeepsOpen(a: Dirs, b: Dirs, path: Path)
    requires Extends(a, b) && PlainOpen(a, path).Some?
    ensures PlainOpen(b, path) == PlainOpen(a, path)
    decreases |path|
  {
    if path != [] {
      ExtendsKeepsOpen(a, b, path[..|path| - 1]);
    }
  }

  /** In a tree, different paths open different directories. */
  lemma {:induction false} PlainOpenInjective(plain: Dirs, nextId: nat, p: Path, q: Path)
    requires IsTree(plain, nextId) && PlainOpen(plain, p).Some? && PlainOpen(plain, p) == PlainOpen(plain, q)
    ensures p == q
    decreases |p|
  {
    hide IsTree;
    if p != [] { LastStep(plain, nextId, p); }
    if q != [] { LastStep(plain, nextId, q); }
    if p != [] && q != [] {
      var p', q' := p[..|p| - 1], q[..|q| - 1];
      OneWayIn(plain, nextId, PlainOpen(plain, p').value, p[|p| - 1], PlainOpen(plain, q').value, q[|q| - 1]);
      PlainOpenInjective(plain, nextId, p', q');
      assert p == p' + [p[|p| - 1]] && q == q' + [q[|q| - 1]];
    }
  }

  lemma LastStep(plain: Dirs, nextId: nat, p: Path)
    requires IsTree(plain, nextId) && p != [] && PlainOpen(plain, p).Some?
    ensures var d := PlainOpen(plain, p[..|p| - 1]);
      && d.Some? && d.value in plain && p[|p| - 1] in plain[d.value]
      && plain[d.value][p[|p| - 1]] == DirNode(PlainOpen(plain, p).value) && PlainOpen(plain, p).value in plain
      && PlainOpen(plain, p).value != ROOT
  {
  }

  lemma OneWayIn(plain: Dirs, nextId: nat, d: nat, p: bytes, e: nat, q: bytes)
    requires IsTree(plain, nextId) && d in plain && e in plain && p in plain[d] && q in plain[e]
    requires plain[d][p].DirNode? && plain[d][p] == plain[e][q]
    ensures d == e && p == q
  {
  }

  /** Removing an empty directory closes its own path and no other that was open. */
  lemma {:induction false} RemovalKeepsOpen(plain: Dirs, nextId: nat, up: Path, p: bytes, path: Path)
    requires IsTree(plain, nextId) && PlainOpen(plain, up).Some? && PlainOpen(plain, up).value in plain
    requires IsEmptyDir(plain, PlainOpen(plain, up).value, p) && PlainOpen(plain, path).Some? && path != up + [p]
    ensures PlainOpen(WithoutDir(plain, PlainOpen(plain, up).value, p), path) == PlainOpen(plain, path)
    decreases |path|
  {
    hide IsTree;
    var d := PlainOpen(plain, up).value;
    var gone := plain[d][p].id;
    var after := WithoutDir(plain, d, p);
    assert (up + [p])[..|up|] == up;
    assert PlainOpen(plain, up + [p]) == Some(gone);
    LastStep(plain, nextId, up + [p]);
    if path != [] {
      LastStep(plain, nextId, path);
      var path', x := path[..|path| - 1], path[|path| - 1];
      var e, y := PlainOpen(plain, path').value, PlainOpen(plain, path).value;
      if path' != up + [p] {
        RemovalKeepsOpen(plain, nextId, up, p, path');
        if y == gone { PlainOpenInjective(plain, nextId, path, up + [p]); }
        if (e, x) == (d, p) { PlainOpenInjective(plain, nextId, path, up + [p]); }
      }
    }
  }

  // ---------- plain directories stay a tree ----------

  lemma TreePut(plain: Dirs, nextId: nat, d: nat, p: bytes, node: Node)
    requires IsTree(plain, nextId) && d in plain && node.FileNode?
    ensures IsTree(plain[d := plain[d][p := node]], nextId)
  {
  }

  lemma TreeDrop(plain: Dirs, nextId: nat, d: nat, p: bytes, gone: set<nat>)
    requires IsTree(plain, nextId) && d in plain
    ensures IsTree(plain[d := plain[d] - {p}] - gone, nextId)
  {
  }

  lemma TreePutDir(plain: Dirs, nextId: nat, d: nat, p: bytes)
    requires IsTree(plain, nextId) && d in plain && p !in plain[d]
    ensures IsTree(plain[d := plain[d][p := DirNode(nextId)]], nextId + 1)
  {
    var e: Dirs := plain[d := plain[d][p := DirNode(nextId)]];
    forall x: nat, c: bytes, y: nat, c': bytes |
        x in e && c in e[x] && e[x][c].DirNode? && y in e && c' in e[y] && e[y][c'] == e[x][c]
      ensures x == y && c == c'
    {
      if (x, c) != (d, p) { assert plain[x][c] == e[x][c]; }
      if (y, c') != (d, p) { assert plain[y][c'] == e[y][c']; }
    }
  }

  lemma TreeMkdir(plain: Dirs, nextId: nat, d: nat, p: bytes, later: nat)
    requires IsTree(plain, nextId) && d in plain && p !in plain[d] && nextId < later
    ensures IsTree(WithDir(plain, d, p, nextId), later)
  {
    TreePutDir(plain, nextId, d, p);
    TreeAdd(plain[d := plain[d][p := DirNode(nextId)]], nextId + 1, nextId);
    TreeLater(WithDir(plain, d, p, nextId), nextId + 1, later);
  }

  lemma TreeAdd(plain: Dirs, nextId: nat, id: nat)
    requires IsTree(plain, nextId) && id < nextId
    ensures IsTree(plain[id := map[]], nextId)
  {
  }

  lemma TreeLater(plain: Dirs, nextId: nat, later: nat)
    requires IsTree(plain, nextId) && nextId <= later
    ensures IsTree(plain, later)
  {
  }

  // ---------- the client ----------

  /** Operations by path. Random names and directory IVs come with the operation. */
  datatype Op =
    | Lookup(path: Path)
    | Create(path: Path)
    | MakeDir(path: Path, iv: bytes)
    | Remove(path: Path)
    | RemoveDir(path: Path, rnd: bytes)
    | Rename(path: Path, to: Path, rnd: bytes)

  /** The same operation on an entry of directory d. */
  function InDir(op: Op, d: nat): VolumeRuns.Op
    requires !op.Lookup? && !op.Rename? && op.path != []
  {
    var p := op.path[|op.path| - 1];
    match op
    case Create(_) => VolumeRuns.Create(d, p)
    case MakeDir(_, iv) => VolumeRuns.MakeDir(d, p, iv)
    case Remove(_) => VolumeRuns.Remove(d, p)
    case RemoveDir(_, rnd) => VolumeRuns.RemoveDir(d, p, rnd)
  }

  /** The directory above a path. */
  function Above(plain: Dirs, path: Path): Option<nat>
    requires path != []
  {
    PlainOpen(plain, path[..|path| - 1])
  }

  predicate Exists(plain: Dirs, path: Path) {
    || path == []
    || (&& Above(plain, path).Some? && Above(plain, path).value in plain
        && path[|path| - 1] in plain[Above(plain, path).value])
  }

  predicate IsDir(plain: Dirs, path: Path) {
    path != [] && Exists(plain, path) && plain[Above(plain, path).value][path[|path| - 1]].DirNode?
  }

  function DirAt(plain: Dirs, path: Path): nat
    requires IsDir(plain, path)
  {
    plain[Above(plain, path).value][path[|path| - 1]].id
  }

  /** The rename between two entries, once their directories are known. */
  function RenameIn(plain: Dirs, path: Path, to: Path, rnd: bytes): VolumeRuns.Op
    requires path != [] && to != [] && Above(plain, path).Some? && Above(plain, to).Some?
  {
    VolumeRuns.Rename(Above(plain, path).value, path[|path| - 1], Above(plain, to).value, to[|to| - 1], rnd)
  }

  ghost predicate RenameStep(n: NameTransform, faulty: bool, before: Dirs, path: Path, to: Path, rnd: bytes, ok: bool,
                             after: Dirs) {
    if path == [] || to == [] || Above(before, path).None? || Above(before, to).None? then !ok && after == before
    else VolumeRuns.PlainStep(n, faulty, before, RenameIn(before, path, to, rnd), ok, after)
  }

  /**
   One step of a client of plain directories. Nothing happens to the root, or where there is no directory.
   The client looks before it renames, and leaves directories where they are.
   */
  ghost predicate PathStep(n: NameTransform, faulty: bool, before: Dirs, op: Op, ok: bool, after: Dirs) {
    if op.Lookup? then after == before && (ok <==> Exists(before, op.path))
    else if op.Rename? then
      if IsDir(before, op.path) then !ok && after == before
      else RenameStep(n, faulty, before, op.path, op.to, op.rnd, ok, after)
    else if op.path == [] || Above(before, op.path).None? then !ok && after == before
    else VolumeRuns.PlainStep(n, faulty, before, InDir(op, Above(before, op.path).value), ok, after)
  }

  class Client {
    const r: Resolver

    constructor (v: Volume, mayExpire: bool)
      requires VolumeRuns.Sound(v) && IsTree(v.plain, v.nextId)
      ensures Valid() && r.v == v && r.mayExpire == mayExpire && fresh(r) && fresh(r.cache) && fresh(r.cache.entries)
      ensures forall i | 0 <= i < DIR_CACHE_SIZE :: r.cache.entries[i] == Free
    {
      r := new Resolver(v, mayExpire);
    }

    ghost predicate Valid()
      reads this, r, r.v, r.cache, r.cache.entries
    {
      r.Valid() && VolumeRuns.Sound(r.v) && IsTree(r.v.plain, r.v.nextId)
    }

    /** One operation of a client, on the directory the cache led it to. */
    method Do(op: Op) returns (ok: bool)
      requires Valid()
      modifies r.v, r.cache`nextIndex, r.cache.entries
      ensures Valid() && old(r.v.trace) <= r.v.trace
      ensures PathStep(r.v.n, r.v.faulty, old(r.v.plain), op, ok, r.v.plain)
    {
      hide AllRepresent, SafeTrace, AllTidy, IsTree, Distinct, PlainOpen, OpenDir, Prepare, VolumeRuns.PlainStep,
           Coherent, IvsKept, EncryptAndHashName, EntryName, IsValidName, Iv, HasIv, OnlyAbove, Has, SubDir,
           RenameStep, IsDir;
      if op.Rename? {
        ok := RenameFile(op.path, op.to, op.rnd);
        return;
      }
      var place := r.PrepareAtSyscall(op.path);
      PlaceIsPlain(r.v.n, r.v.dirs, r.v.plain, op.path);
      ok := false;
      match place {
        case Failed =>
          if !op.Lookup? && Above(r.v.plain, op.path).Some? {
            NoSuchName(r.v.n, r.v.faulty, r.v.dirs, r.v.plain, op);
          }
        case Root => ok := op.Lookup?;
        case At(d, c) =>
          if op.Lookup? {
            ok := c in r.v.dirs[d];
          } else {
            ok := DoIn(op, d);
          }
      }
      ghost var slots2 := r.cache.entries[..];
      r.MayExpire();
      Expired(r.v.n, r.v.dirs, slots2, slots2, r.cache.entries[..], []);
    }

    /** Carry it out; the path of a directory that is removed leaves the cache. */
    method DoIn(op: Op, d: nat) returns (ok: bool)
      requires Valid() && !op.Lookup? && !op.Rename? && op.path != [] && Above(r.v.plain, op.path) == Some(d)
      modifies r.v, r.cache`nextIndex, r.cache.entries
      ensures Valid() && old(r.v.trace) <= r.v.trace
      ensures VolumeRuns.PlainStep(r.v.n, r.v.faulty, old(r.v.plain), InDir(op, d), ok, r.v.plain)
    {
      hide AllRepresent, SafeTrace, AllTidy, IsTree, Distinct, PlainOpen, OpenDir, VolumeRuns.PlainStep, Coherent,
           IvsKept, Has, WithDir, IsDir;
      ghost var dirs0, plain0, id0, slots0 := r.v.dirs, r.v.plain, r.v.nextId, r.cache.entries[..];
      ok := VolumeRuns.Perform(r.v, InDir(op, d));
      r.MayExpire();
      if op.RemoveDir? && ok {
        r.cache.Delete(op.path);
      }
      KeepsTree(r.v.n, r.v.faulty, plain0, id0, InDir(op, d), ok, r.v.plain, r.v.nextId);
      StaysCoherent(r.v.n, r.v.faulty, dirs0, plain0, id0, slots0, op, d, ok, r.v.dirs, r.v.plain, r.cache.entries[..]);
    }

    /** Rename what is not a directory, after a look. */
    method RenameFile(path: Path, to: Path, rnd: bytes) returns (ok: bool)
      requires Valid()
      modifies r.v, r.cache`nextIndex, r.cache.entries
      ensures Valid() && old(r.v.trace) <= r.v.trace
      ensures if IsDir(old(r.v.plain), path) then !ok && r.v.plain == old(r.v.plain)
              else RenameStep(r.v.n, r.v.faulty, old(r.v.plain), path, to, rnd, ok, r.v.plain)
    {
      hide AllRepresent, SafeTrace, AllTidy, IsTree, Distinct, PlainOpen, OpenDir, Prepare, VolumeRuns.PlainStep,
           Coherent, EncryptAndHashName, EntryName, IsValidName, Iv, HasIv, OnlyAbove, Has, SubDir, RenameStep,
           IsDir, HoldsBelow;
      var place := r.PrepareAtSyscall(path);
      PlaceIsPlain(r.v.n, r.v.dirs, r.v.plain, path);
      if place.At? {
        EntryIsPlain(r.v.n, r.v.dirs, r.v.plain, path, place.dir);
        if place.cName in r.v.dirs[place.dir] && r.v.dirs[place.dir][place.cName].DirNode? {
          return false;
        }
      } else {
        NothingIsNoDir(r.v.plain, path);
      }
      ok := RenamePath(path, to, rnd);
    }

    /**
     Rename anything. The cache hears of a directory that had to make room, and not of one that moves: it is
     right afterwards if and only if no directory moved, or nothing at or below its old path is cached.
     */
    method RenamePath(path: Path, to: Path, rnd: bytes) returns (ok: bool)
      requires Valid()
      modifies r.v, r.cache`nextIndex, r.cache.entries
      ensures r.cache.Valid() && Distinct(r.cache.entries[..]) && old(r.v.trace) <= r.v.trace
      ensures VolumeRuns.Sound(r.v) && IsTree(r.v.plain, r.v.nextId)
      ensures RenameStep(r.v.n, r.v.faulty, old(r.v.plain), path, to, rnd, ok, r.v.plain)
      ensures Valid() <==> !(ok && path != to && IsDir(old(r.v.plain), path) && HoldsBelow(r.cache.entries[..], path))
      ensures !HoldsBelow(old(r.cache.entries[..]), path) ==> Valid()
      ensures !r.v.faulty ==> (ok <==> CanRenamePath(r.v.n, old(r.v.plain), path, to, rnd))
      ensures !r.v.faulty && !r.mayExpire && ParentsHeld(old(r.cache.entries[..]), path, to) ==>
        (Valid() <==>
          !(&& CanRenamePath(r.v.n, old(r.v.plain), path, to, rnd) && path != to && IsDir(old(r.v.plain), path)
            && HoldsBelow(old(r.cache.entries[..]), path)))
    {
      hide AllRepresent, SafeTrace, AllTidy, IsTree, Distinct, PlainOpen, OpenDir, Prepare, VolumeRuns.PlainStep,
           Coherent, IvsKept, EncryptAndHashName, EntryName, IsValidName, Iv, HasIv, OnlyAbove, Has, SubDir,
           RenameStep, IsDir, HoldsBelow, Exists;
      ok := false;
      ghost var plain0, slots0 := r.v.plain, r.cache.entries[..];
      var place := r.PrepareAtSyscall(path);
      ghost var slots1 := r.cache.entries[..];
      PlaceIsPlain(r.v.n, r.v.dirs, r.v.plain, path);
      HeldBefore(slots0, slots1, path, path);
      if !place.Failed? {
        var place2 := r.PrepareAtSyscall(to);
        PlaceIsPlain(r.v.n, r.v.dirs, r.v.plain, to);
        if place.At? && place2.At? {
          HeldBefore(slots1, r.cache.entries[..], to, path);
          ok := RenameAt(path, place.dir, to, place2.dir, place2.cName, rnd);
          StepSucceeds(r.v.n, r.v.faulty, plain0, path, to, rnd, ok, r.v.plain);
          return;
        }
      }
      NoSuchRename(r.v.n, r.v.faulty, r.v.dirs, r.v.plain, path, to, rnd);
      StepSucceeds(r.v.n, r.v.faulty, plain0, path, to, rnd, ok, r.v.plain);
    }

    /** A directory in the way is removed by its path, which is resolved once more. */
    method RenameAt(path: Path, d1: nat, to: Path, d2: nat, c2: bytes, rnd: bytes) returns (ok: bool)
      requires Valid() && path != [] && to != [] && d2 in r.v.dirs && d2 in r.v.plain && IsValidName(to[|to| - 1])
      requires Above(r.v.plain, path) == Some(d1) && Above(r.v.plain, to) == Some(d2)
      requires c2 == EntryName(r.v.n, to[|to| - 1], Iv(r.v.dirs[d2]))
      modifies r.v, r.cache`nextIndex, r.cache.entries
      ensures r.cache.Valid() && Distinct(r.cache.entries[..]) && old(r.v.trace) <= r.v.trace
      ensures VolumeRuns.Sound(r.v) && IsTree(r.v.plain, r.v.nextId)
      ensures RenameStep(r.v.n, r.v.faulty, old(r.v.plain), path, to, rnd, ok, r.v.plain)
      ensures Valid() <==> !(ok && path != to && IsDir(old(r.v.plain), path) && HoldsBelow(r.cache.entries[..], path))
      ensures ok && path != to && IsDir(old(r.v.plain), path) ==>
        && !(path <= to)
        && (HoldsBelow(r.cache.entries[..], path) ==> HoldsBelow(old(r.cache.entries[..]), path))
        && (!r.mayExpire && Has(old(r.cache.entries[..]), to[..|to| - 1]) ==>
              (HoldsBelow(r.cache.entries[..], path) <==> HoldsBelow(old(r.cache.entries[..]), path)))
    {
      hide AllRepresent, SafeTrace, AllTidy, IsTree, Distinct, PlainOpen, OpenDir, Prepare, VolumeRuns.PlainStep,
           Coherent, IvsKept, EncryptAndHashName, EntryName, IsValidName, Iv, HasIv, OnlyAbove, Has, SubDir, IsDir,
           HoldsBelow, Exists, RenameStep, Without;
      ghost var plain0, id0, first := r.v.plain, r.v.nextId, r.cache.entries[..];
      NothingAbove(first, to);
      if c2 in r.v.dirs[d2] && r.v.dirs[d2][c2].DirNode? {
        var _ := r.PrepareAtSyscall(to);
      }
      ghost var slots0 := r.cache.entries[..];
      ok := RenameNow(path, d1, to, d2, c2, rnd);
      if ok && path != to && IsDir(plain0, path) {
        NotBelowItself(r.v.n, r.v.faulty, plain0, id0, path, to, rnd, r.v.plain);
        HeldBefore(first, slots0, to, path);
        StillHeld(slots0, r.cache.entries[..], to, path);
      }
    }

    method RenameNow(path: Path, d1: nat, to: Path, d2: nat, c2: bytes, rnd: bytes) returns (ok: bool)
      requires Valid() && path != [] && to != [] && d2 in r.v.dirs && d2 in r.v.plain && IsValidName(to[|to| - 1])
      requires Above(r.v.plain, path) == Some(d1) && Above(r.v.plain, to) == Some(d2)
      requires c2 == EntryName(r.v.n, to[|to| - 1], Iv(r.v.dirs[d2]))
      modifies r.v, r.cache`nextIndex, r.cache.entries
      ensures r.cache.Valid() && Distinct(r.cache.entries[..]) && old(r.v.trace) <= r.v.trace
      ensures VolumeRuns.Sound(r.v) && IsTree(r.v.plain, r.v.nextId)
      ensures RenameStep(r.v.n, r.v.faulty, old(r.v.plain), path, to, rnd, ok, r.v.plain)
      ensures Valid() <==> !(ok && path != to && IsDir(old(r.v.plain), path) && HoldsBelow(r.cache.entries[..], path))
      ensures forall i | 0 <= i < DIR_CACHE_SIZE ::
        r.cache.entries[i] == old(r.cache.entries[i]) || r.cache.entries[i] == Free
      ensures !r.mayExpire ==>
        || r.cache.entries[..] == old(r.cache.entries[..])
        || r.cache.entries[..] == Without(old(r.cache.entries[..]), to)
    {
      hide AllRepresent, SafeTrace, AllTidy, IsTree, Distinct, PlainOpen, VolumeRuns.PlainStep, Coherent, IvsKept,
           EntryName, IsValidName, Iv, Has, IsDir, HoldsBelow, WithDir;
      ghost var dirs0, plain0, id0, slots0 := r.v.dirs, r.v.plain, r.v.nextId, r.cache.entries[..];
      var inTheWay := if c2 in r.v.dirs[d2] then Some(r.v.dirs[d2][c2]) else None;
      EntryIsPlain(r.v.n, dirs0, plain0, to, d2);
      ok := VolumeRuns.Perform(r.v, VolumeRuns.Rename(d1, path[|path| - 1], d2, to[|to| - 1], rnd));
      r.MayExpire();
      if inTheWay.Some? && inTheWay.value.DirNode? && inTheWay.value.id !in r.v.dirs {
        r.cache.Delete(to);
      }
      KeysAgree(r.v.n, r.v.dirs, r.v.plain);
      RenameKeepsTree(r.v.n, r.v.faulty, plain0, id0, path, to, rnd, ok, r.v.plain, r.v.nextId);
      RenamedCache(r.v.n, r.v.faulty, dirs0, plain0, id0, slots0, path, to, rnd, ok, r.v.dirs, r.v.plain,
                   r.cache.entries[..]);
    }
  }

  /** The cache holds a path at or below this one. */
  predicate HoldsBelow(slots: seq<Slot>, path: Path) {
    exists i | 0 <= i < |slots| :: slots[i].Used? && path <= slots[i].path
  }

  /** The directories of both ends of a rename are cached. */
  predicate ParentsHeld(slots: seq<Slot>, path: Path, to: Path) {
    path != [] && to != [] && Has(slots, path[..|path| - 1]) && Has(slots, to[..|to| - 1])
  }

  predicate CanRenamePath(n: NameTransform, plain: Dirs, path: Path, to: Path, rnd: bytes) {
    && path != [] && to != [] && Above(plain, path).Some? && Above(plain, to).Some?
    && VolumeRuns.Succeeds(n, plain, RenameIn(plain, path, to, rnd))
  }

  lemma StepSucceeds(n: NameTransform, faulty: bool, before: Dirs, path: Path, to: Path, rnd: bytes, ok: bool,
                     after: Dirs)
    requires RenameStep(n, faulty, before, path, to, rnd, ok, after)
    ensures !faulty ==> (ok <==> CanRenamePath(n, before, path, to, rnd))
  {
    hide VolumeRuns.Succeeds, PlainOpen;
  }

  lemma NothingAbove(slots: seq<Slot>, path: Path)
    ensures OnlyAbove(slots, slots, path)
  {
  }

  /** Resolving x caches nothing at or below a path that is not above x. */
  lemma HeldBefore(before: seq<Slot>, after: seq<Slot>, x: Path, path: Path)
    requires OnlyAbove(before, after, x)
    ensures !(path < x) && HoldsBelow(after, path) ==> HoldsBelow(before, path)
  {
    if !(path < x) && HoldsBelow(after, path) {
      var i :| 0 <= i < |after| && after[i].Used? && path <= after[i].path;
      assert Has(before, after[i].path);
    }
  }

  /** What the cache loses, if anything, is one path that is not below. */
  lemma StillHeld(before: seq<Slot>, after: seq<Slot>, gone: Path, path: Path)
    requires |before| == |after| && forall i | 0 <= i < |after| :: after[i] == before[i] || after[i] == Free
    ensures HoldsBelow(after, path) ==> HoldsBelow(before, path)
    ensures (after == before || after == Without(before, gone)) && !(path <= gone) && HoldsBelow(before, path) ==>
      HoldsBelow(after, path)
  {
    if HoldsBelow(before, path) && !(path <= gone) {
      var i :| 0 <= i < |before| && before[i].Used? && path <= before[i].path;
      assert after == before || after == Without(before, gone) ==> after[i] == before[i];
    }
  }

  /** What opens below a path lies below the directory it opens. */
  lemma {:induction false} BelowIsReached(plain: Dirs, path: Path, q: Path)
    requires path <= q && PlainOpen(plain, q).Some?
    ensures PlainOpen(plain, path).Some?
    ensures PlainOpen(plain, q).value in DirTree.Reach(plain, {PlainOpen(plain, path).value})
    decreases |q|
  {
    hide DirTree.Reach;
    if path != q {
      var q' := q[..|q| - 1];
      assert path <= q';
      BelowIsReached(plain, path, q');
      OpenLast(plain, q);
      var s := DirTree.Reach(plain, {PlainOpen(plain, path).value});
      assert PlainOpen(plain, q).value in DirTree.Subdirs(plain, s);
    }
  }

  /** A directory does not move below itself. */
  lemma NotBelowItself(n: NameTransform, faulty: bool, before: Dirs, id: nat, path: Path, to: Path, rnd: bytes,
                       after: Dirs)
    requires RenameStep(n, faulty, before, path, to, rnd, true, after) && IsTree(before, id)
    requires path != to && IsDir(before, path)
    ensures !(path <= to)
  {
    hide PlainOpen, IsTree, DirTree.Reach, VolumeRuns.Done, IsHashed;
    if path <= to {
      var up := to[..|to| - 1];
      assert path <= up;
      BelowIsReached(before, path, up);
      OpenLast(before, path);
      SameEntry(before, id, path, to);
    }
  }

  lemma NothingIsNoDir(plain: Dirs, path: Path)
    ensures path == [] || !Exists(plain, path) ==> !IsDir(plain, path)
  {
  }

  lemma EntryIsPlain(n: NameTransform, dirs: Dirs, plain: Dirs, path: Path, d: nat)
    requires AllRepresent(n, dirs, plain) && path != [] && Above(plain, path) == Some(d) && d in dirs && d in plain
    requires IsValidName(path[|path| - 1])
    ensures var c := EntryName(n, path[|path| - 1], Iv(dirs[d]));
      && (IsDir(plain, path) <==> c in dirs[d] && dirs[d][c].DirNode?)
      && (IsDir(plain, path) ==> DirAt(plain, path) == dirs[d][c].id)
  {
    hide AllRepresent, Represents, EntryName, IsValidName, PlainOpen;
    Both(n, dirs, plain, d);
    EntryLookup(n, dirs[d], plain[d], path[|path| - 1]);
  }

  /** Nothing to rename, or no name to rename it to. */
  lemma NoSuchRename(n: NameTransform, faulty: bool, dirs: Dirs, plain: Dirs, path: Path, to: Path, rnd: bytes)
    requires AllRepresent(n, dirs, plain)
    requires path == [] || to == [] || Above(plain, path).None? || !IsValidName(path[|path| - 1])
          || Above(plain, to).None? || !IsValidName(to[|to| - 1])
    ensures RenameStep(n, faulty, plain, path, to, rnd, false, plain)
  {
    hide AllRepresent, Represents, IsValidName, PlainOpen, IsHashed, CanRename;
    if path != [] && to != [] && Above(plain, path).Some? && Above(plain, to).Some? {
      var d, d2 := Above(plain, path).value, Above(plain, to).value;
      KeysAgree(n, dirs, plain);
      if d in plain && d2 in plain {
        CanRenameNames(plain, d, path[|path| - 1], d2, to[|to| - 1]);
        Both(n, dirs, plain, d);
        PlainNamesValid(n, dirs[d], plain[d]);
      }
    }
  }

  predicate Moves(mid: Dirs, op: VolumeRuns.Op)
    requires op.Rename?
  {
    && op.d in mid && op.d2 in mid && op.p in mid[op.d] && (op.d, op.p) != (op.d2, op.p2)
    && (op.p2 in mid[op.d2] ==> mid[op.d2][op.p2].FileNode? && mid[op.d][op.p].FileNode?)
  }

  /** What a rename does to the plain directories: an empty directory may make room, and then the node may move. */
  lemma RenameParts(n: NameTransform, faulty: bool, before: Dirs, op: VolumeRuns.Op, ok: bool, after: Dirs)
    returns (mid: Dirs)
    requires op.Rename? && VolumeRuns.PlainStep(n, faulty, before, op, ok, after)
    ensures mid != before ==>
      op.d2 in before && IsEmptyDir(before, op.d2, op.p2) && mid == WithoutDir(before, op.d2, op.p2)
    ensures ok ==> op.d in before && op.d2 in before && op.p in before[op.d]
    ensures ok && (op.d, op.p) != (op.d2, op.p2) ==> Moves(mid, op) && mid[op.d][op.p] == before[op.d][op.p]
    ensures after == if ok && (op.d, op.p) != (op.d2, op.p2)
                     then PutNode(mid, op.d, op.p, op.d2, op.p2, mid[op.d][op.p]) else mid
  {
    hide DirTree.Reach, IsValidName, IsHashed;
    mid := before;
    if after != before && op.d2 in before && IsEmptyDir(before, op.d2, op.p2) {
      mid := WithoutDir(before, op.d2, op.p2);
      if ok { AfterRemoval(before, mid, op.d, op.p, op.d2, op.p2); }
    }
  }

  lemma TreeMove(base: Dirs, nextId: nat, d: nat, p: bytes, d2: nat, p2: bytes)
    requires IsTree(base, nextId) && d in base && d2 in base && p in base[d]
    ensures IsTree(PutNode(base, d, p, d2, p2, base[d][p]), nextId)
  {
    var node := base[d][p];
    var e := PutNode(base, d, p, d2, p2, node);
    forall x: nat, c: bytes | x in e && c in e[x] && (x, c) != (d2, p2)
      ensures x in base && c in base[x] && e[x][c] == base[x][c] && (x, c) != (d, p) {}
    forall x: nat, c: bytes, y: nat, c': bytes |
        && x in e && c in e[x] && e[x][c].DirNode?
        && y in e && c' in e[y] && e[y][c'].DirNode? && e[x][c].id == e[y][c'].id
      ensures x == y && c == c'
    {
    }
  }

  lemma RenameKeepsTree(n: NameTransform, faulty: bool, before: Dirs, id: nat, path: Path, to: Path, rnd: bytes,
                        ok: bool, after: Dirs, later: nat)
    requires IsTree(before, id) && id <= later && path != [] && to != [] && Above(before, path).Some?
    requires Above(before, to).Some?
    requires VolumeRuns.PlainStep(n, faulty, before, RenameIn(before, path, to, rnd), ok, after)
    ensures IsTree(after, later)
  {
    hide IsTree, VolumeRuns.PlainStep, PlainOpen;
    TreeLater(before, id, later);
    var op := RenameIn(before, path, to, rnd);
    var mid := RenameParts(n, faulty, before, op, ok, after);
    if mid != before { TreeDrop(before, later, op.d2, op.p2, {before[op.d2][op.p2].id}); }
    if after != mid { TreeMove(mid, later, op.d, op.p, op.d2, op.p2); }
  }

  /** The last step of a path. */
  lemma OpenLast(plain: Dirs, q: Path)
    requires q != []
    ensures PlainOpen(plain, q)
        == if Above(plain, q).None? then None else SubDir(plain, Above(plain, q).value, q[|q| - 1])
    ensures Above(plain, q) == PlainOpen(plain, q[..|q| - 1])
  {
  }

  /** Only the entry that moves leads elsewhere. */
  lemma MovedSubDir(base: Dirs, op: VolumeRuns.Op, e: nat, x: bytes)
    requires op.Rename? && Moves(base, op) && base[op.d][op.p].DirNode? && SubDir(base, e, x).Some?
    ensures SubDir(PutNode(base, op.d, op.p, op.d2, op.p2, base[op.d][op.p]), e, x)
         == if (e, x) == (op.d, op.p) then None else SubDir(base, e, x)
  {
  }

  /** A directory that moves closes the paths at and below its old one, and no other. */
  lemma {:induction false} MoveKeepsOpen(base: Dirs, nextId: nat, path: Path, op: VolumeRuns.Op, q: Path)
    requires IsTree(base, nextId) && op.Rename? && Moves(base, op) && base[op.d][op.p].DirNode?
    requires path != [] && Above(base, path) == Some(op.d) && path[|path| - 1] == op.p && PlainOpen(base, q).Some?
    ensures PlainOpen(PutNode(base, op.d, op.p, op.d2, op.p2, base[op.d][op.p]), q)
         == if path <= q then None else PlainOpen(base, q)
    decreases |q|
  {
    hide IsTree, PlainOpen, PutNode, SubDir, Above;
    var after := PutNode(base, op.d, op.p, op.d2, op.p2, base[op.d][op.p]);
    if q == [] {
      RootStays(base, op);
    } else {
      var q', x := q[..|q| - 1], q[|q| - 1];
      assert q == q' + [x];
      OpenLast(base, q);
      OpenLast(after, q);
      MoveKeepsOpen(base, nextId, path, op, q');
      MovedSubDir(base, op, Above(base, q).value, x);
      SameEntry(base, nextId, path, q);
      if path <= q && path != q {
        assert path <= q';
      }
    }
  }

  lemma RootStays(base: Dirs, op: VolumeRuns.Op)
    requires op.Rename? && Moves(base, op)
    ensures PlainOpen(PutNode(base, op.d, op.p, op.d2, op.p2, base[op.d][op.p]), []) == PlainOpen(base, [])
  {
  }

  /** A file that moves closes none. */
  lemma FileMoveKeepsOpen(base: Dirs, op: VolumeRuns.Op, q: Path)
    requires op.Rename? && Moves(base, op) && base[op.d][op.p].FileNode? && PlainOpen(base, q).Some?
    requires op.p2 in base[op.d2] ==> base[op.d2][op.p2].FileNode?
    ensures PlainOpen(PutNode(base, op.d, op.p, op.d2, op.p2, base[op.d][op.p]), q) == PlainOpen(base, q)
  {
    ExtendsKeepsOpen(base, PutNode(base, op.d, op.p, op.d2, op.p2, base[op.d][op.p]), q);
  }

  /** Where a path that opened leads after a rename, but for that of a directory that had to make room. */
  lemma RenameWalks(n: NameTransform, faulty: bool, before: Dirs, id: nat, path: Path, to: Path, rnd: bytes, ok: bool,
                    after: Dirs, q: Path)
    requires IsTree(before, id) && path != [] && to != [] && Above(before, path).Some? && Above(before, to).Some?
    requires VolumeRuns.PlainStep(n, faulty, before, RenameIn(before, path, to, rnd), ok, after)
    requires PlainOpen(before, q).Some? && !(q == to && IsDir(before, to) && DirAt(before, to) !in after)
    ensures PlainOpen(after, q)
        == if ok && path != to && IsDir(before, path) && path <= q then None else PlainOpen(before, q)
  {
    hide IsTree, VolumeRuns.PlainStep, PlainOpen, PutNode, WithoutDir;
    var op := RenameIn(before, path, to, rnd);
    var mid := RenameParts(n, faulty, before, op, ok, after);
    SameEntry(before, id, path, to);
    if mid != before {
      assert IsDir(before, to) && DirAt(before, to) !in after by { GoneAfter(before, op, mid, after); }
      MidKeepsOpen(before, id, path, to, op, mid, q);
    }
    if ok && (op.d, op.p) != (op.d2, op.p2) {
      if mid != before { MidKeepsOpen(before, id, path, to, op, mid, path[..|path| - 1]); }
      if mid[op.d][op.p].FileNode? {
        FileMoveKeepsOpen(mid, op, q);
      } else {
        MoveKeepsOpen(mid, id, path, op, q);
      }
    }
  }

  /** Two paths with the same entry are the same. */
  lemma SameEntry(plain: Dirs, id: nat, path: Path, to: Path)
    requires IsTree(plain, id) && path != [] && to != [] && Above(plain, path).Some?
    ensures Above(plain, path) == Above(plain, to) && path[|path| - 1] == to[|to| - 1] ==> path == to
  {
    hide IsTree, PlainOpen;
    if Above(plain, path) == Above(plain, to) {
      PlainOpenInjective(plain, id, path[..|path| - 1], to[..|to| - 1]);
    }
    assert path == path[..|path| - 1] + [path[|path| - 1]] && to == to[..|to| - 1] + [to[|to| - 1]];
  }

  lemma GoneAfter(before: Dirs, op: VolumeRuns.Op, mid: Dirs, after: Dirs)
    requires op.Rename? && op.d2 in before && IsEmptyDir(before, op.d2, op.p2)
    requires mid == WithoutDir(before, op.d2, op.p2)
    requires after == mid || (Moves(mid, op) && after == PutNode(mid, op.d, op.p, op.d2, op.p2, mid[op.d][op.p]))
    ensures before[op.d2][op.p2].id !in after
  {
  }

  /** When an empty directory makes room, the other paths open what they did, and it was not above what moves. */
  lemma MidKeepsOpen(before: Dirs, id: nat, path: Path, to: Path, op: VolumeRuns.Op, mid: Dirs, q: Path)
    requires IsTree(before, id) && op.Rename? && to != [] && Above(before, to) == Some(op.d2) && to[|to| - 1] == op.p2
    requires op.d2 in before && IsEmptyDir(before, op.d2, op.p2) && mid == WithoutDir(before, op.d2, op.p2)
    requires PlainOpen(before, q).Some?
    requires q != to || (PlainOpen(before, q) == Some(op.d) && op.d in before && op.p in before[op.d])
    ensures IsTree(mid, id) && PlainOpen(mid, q) == PlainOpen(before, q)
  {
    hide IsTree, PlainOpen;
    var up := to[..|to| - 1];
    assert to == up + [op.p2];
    TreeDrop(before, id, op.d2, op.p2, {before[op.d2][op.p2].id});
    if q == to { LastStep(before, id, to); }
    RemovalKeepsOpen(before, id, up, op.p2, q);
  }

  lemma RenamedCache(n: NameTransform, faulty: bool, dirs: Dirs, plain: Dirs, id: nat, slots: seq<Slot>, path: Path,
                     to: Path, rnd: bytes, ok: bool, dirs': Dirs, plain': Dirs, slots': seq<Slot>)
    requires AllRepresent(n, dirs, plain) && AllRepresent(n, dirs', plain') && IvsKept(dirs, dirs') && IsTree(plain, id)
    requires path != [] && to != [] && Above(plain, path).Some? && Above(plain, to).Some?
    requires VolumeRuns.PlainStep(n, faulty, plain, RenameIn(plain, path, to, rnd), ok, plain')
    requires Coherent(n, dirs, slots) && |slots| == |slots'|
    requires forall i | 0 <= i < |slots| :: slots'[i] == slots[i] || slots'[i] == Free
    requires IsDir(plain, to) && DirAt(plain, to) !in plain' ==> !Has(slots', to)
    ensures Coherent(n, dirs', slots') <==> !(ok && path != to && IsDir(plain, path) && HoldsBelow(slots', path))
  {
    hide AllRepresent, IsTree, OpenDir, PlainOpen, VolumeRuns.PlainStep, Iv, IsDir;
    forall i | 0 <= i < |slots'| && slots'[i].Used?
      ensures (OpenDir(n, dirs', slots'[i].path) == Some(slots'[i].dir) && slots'[i].dir in dirs'
           && slots'[i].iv == Iv(dirs'[slots'[i].dir]))
        <==> !(ok && path != to && IsDir(plain, path) && path <= slots'[i].path)
    {
      var q := slots'[i].path;
      OpenIsPlain(n, dirs, plain, q);
      OpenIsPlain(n, dirs', plain', q);
      RenameWalks(n, faulty, plain, id, path, to, rnd, ok, plain', q);
    }
  }

  ghost predicate GoodPlace(n: NameTransform, dirs: Dirs, plain: Dirs, path: Path, place: Place)
    requires place.At?
  {
    && path != [] && Above(plain, path) == Some(place.dir) && place.dir in dirs && place.dir in plain
    && IsValidName(path[|path| - 1]) && place.cName == EntryName(n, path[|path| - 1], Iv(dirs[place.dir]))
    && (place.cName in dirs[place.dir] <==> Exists(plain, path))
  }

  /** Where a path leads, in terms of the plain directories. */
  lemma PlaceIsPlain(n: NameTransform, dirs: Dirs, plain: Dirs, path: Path)
    requires AllRepresent(n, dirs, plain)
    ensures Prepare(n, dirs, path).Root? <==> path == []
    ensures Prepare(n, dirs, path).Failed? ==>
      path != [] && !Exists(plain, path) && (Above(plain, path).None? || !IsValidName(path[|path| - 1]))
    ensures Prepare(n, dirs, path).At? ==> GoodPlace(n, dirs, plain, path, Prepare(n, dirs, path))
  {
    hide AllRepresent, OpenDir, EncryptAndHashName, EntryName, IsValidName, Iv, HasIv, SubDir;
    if path != [] {
      OpenIsPlain(n, dirs, plain, path[..|path| - 1]);
      var d := OpenDir(n, dirs, path[..|path| - 1]);
      if d.Some? {
        StepIsPlain(n, dirs, plain, d.value, path[|path| - 1]);
      }
    }
  }

  /** A name that no entry can have: nothing to do, and it does not succeed. */
  lemma NoSuchName(n: NameTransform, faulty: bool, dirs: Dirs, plain: Dirs, op: Op)
    requires AllRepresent(n, dirs, plain) && !op.Lookup? && op.path != [] && !IsValidName(op.path[|op.path| - 1])
    requires Above(plain, op.path).Some?
    ensures PathStep(n, faulty, plain, op, false, plain)
  {
    hide AllRepresent, Represents, IsValidName, PlainOpen, IsHashed;
    var d := Above(plain, op.path).value;
    KeysAgree(n, dirs, plain);
    if d in dirs {
      Both(n, dirs, plain, d);
      PlainNamesValid(n, dirs[d], plain[d]);
    }
  }

  lemma KeepsTree(n: NameTransform, faulty: bool, before: Dirs, id: nat, op: VolumeRuns.Op, ok: bool, after: Dirs,
                  later: nat)
    requires IsTree(before, id) && id <= later && !op.Rename? && VolumeRuns.PlainStep(n, faulty, before, op, ok, after)
    requires op.MakeDir? && after != before ==> id < later && op.d in before && after == WithDir(before, op.d, op.p, id)
    ensures IsTree(after, later)
  {
    hide IsTree, CanCreate, IsHashed, IsValidName, WithDir;
    TreeLater(before, id, later);
    if after != before {
      match op
      case Create(d, p) => TreePut(before, later, d, p, FileNode([]));
      case MakeDir(d, p, _) => TreeMkdir(before, id, d, p, later);
      case Remove(d, p) =>
        TreeDrop(before, later, d, p, {});
        assert before[d := before[d] - {p}] - {} == before[d := before[d] - {p}];
      case RemoveDir(d, p, _) => TreeDrop(before, later, d, p, {before[d][p].id});
      case Rename(_, _, _, _, _) =>
    }
  }

  /** Every path that opened still opens the same directory, but for the path of a directory that was removed. */
  lemma WalksKept(n: NameTransform, faulty: bool, before: Dirs, id: nat, op: Op, d: nat, ok: bool, after: Dirs,
                  path: Path)
    requires IsTree(before, id) && !op.Lookup? && !op.Rename? && op.path != [] && Above(before, op.path) == Some(d)
    requires VolumeRuns.PlainStep(n, faulty, before, InDir(op, d), ok, after)
    requires PlainOpen(before, path).Some? && !(op.RemoveDir? && ok && path == op.path)
    ensures PlainOpen(after, path) == PlainOpen(before, path)
  {
    hide IsTree, CanCreate, IsHashed, PlainOpen;
    if after != before {
      if op.RemoveDir? {
        var up, p := op.path[..|op.path| - 1], op.path[|op.path| - 1];
        assert op.path == up + [p];
        RemovalKeepsOpen(before, id, up, p, path);
      } else {
        assert Extends(before, after);
        ExtendsKeepsOpen(before, after, path);
      }
    }
  }

  /** What the cache holds after an operation agrees with the directories the operation leaves. */
  lemma StaysCoherent(n: NameTransform, faulty: bool, dirs: Dirs, plain: Dirs, id: nat, slots: seq<Slot>, op: Op,
                      d: nat, ok: bool, dirs': Dirs, plain': Dirs, slots': seq<Slot>)
    requires AllRepresent(n, dirs, plain) && AllRepresent(n, dirs', plain') && IvsKept(dirs, dirs') && IsTree(plain, id)
    requires !op.Lookup? && !op.Rename? && op.path != [] && Above(plain, op.path) == Some(d)
    requires VolumeRuns.PlainStep(n, faulty, plain, InDir(op, d), ok, plain')
    requires Coherent(n, dirs, slots) && |slots| == |slots'|
    requires forall i | 0 <= i < |slots| :: slots'[i] == slots[i] || slots'[i] == Free
    requires op.RemoveDir? && ok ==> !Has(slots', op.path)
    ensures Coherent(n, dirs', slots')
  {
    hide AllRepresent, IsTree, OpenDir, PlainOpen, VolumeRuns.PlainStep, Iv;
    forall i | 0 <= i < |slots'| && slots'[i].Used?
      ensures OpenDir(n, dirs', slots'[i].path) == Some(slots'[i].dir) && slots'[i].dir in dirs'
           && slots'[i].iv == Iv(dirs'[slots'[i].dir])
    {
      var q := slots'[i].path;
      OpenIsPlain(n, dirs, plain, q);
      OpenIsPlain(n, dirs', plain', q);
      WalksKept(n, faulty, plain, id, op, d, ok, plain', q);
    }
  }

  /** Any run: through the cache, however it expires, every path means what it means in the plain directories. */
  method Run(c: Client, ops: seq<Op>) returns (oks: seq<bool>, ghost states: seq<Dirs>)
    requires c.Valid()
    modifies c.r.v, c.r.cache`nextIndex, c.r.cache.entries
    ensures c.Valid() && old(c.r.v.trace) <= c.r.v.trace && |oks| == |ops| && |states| == |ops| + 1
    ensures states[0] == old(c.r.v.plain) && states[|ops|] == c.r.v.plain
    ensures forall i | 0 <= i < |ops| :: PathStep(c.r.v.n, c.r.v.faulty, states[i], ops[i], oks[i], states[i + 1])
  {
    hide AllRepresent, SafeTrace, AllTidy, IsTree, Distinct, Coherent, PathStep;
    oks, states := [], [c.r.v.plain];
    for i := 0 to |ops|
      invariant c.Valid() && old(c.r.v.trace) <= c.r.v.trace && |oks| == i && |states| == i + 1
      invariant states[0] == old(c.r.v.plain) && states[i] == c.r.v.plain
      invariant forall k | 0 <= k < i :: PathStep(c.r.v.n, c.r.v.faulty, states[k], ops[k], oks[k], states[k + 1])
    {
      var ok := c.Do(ops[i]);
      oks, states := oks + [ok], states + [c.r.v.plain];
    }
  }
}
