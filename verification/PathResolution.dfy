/**
 From a path to a directory and an entry name, through the cache (helpers.go), in a volume
 whose directories come and go. The cache must never show.
 */
module PathResolution {
  import opened Bytes
  import opened Names
  import opened DirImage
  import opened DirCache
  import opened DirOps

  const ROOT: nat := 0

  /** A directory and the entry in it; the root is itself. */
  datatype Place = Root | At(dir: nat, cName: bytes) | Failed

  // ---------- without a cache ----------

  function SubDir(dirs: Dirs, d: nat, c: bytes): Option<nat> {
    if d in dirs && c in dirs[d] && dirs[d][c].DirNode? && dirs[d][c].id in dirs then Some(dirs[d][c].id) else None
  }

  /** Walking from the root, opening each directory and reading its IV. */
  function OpenDir(n: NameTransform, dirs: Dirs, path: Path): Option<nat> {
    if path == [] then
      if ROOT in dirs && HasIv(dirs[ROOT]) then Some(ROOT) else None
    else
      var parent := OpenDir(n, dirs, path[..|path| - 1]);
      if parent.None? || parent.value !in dirs then None
      else
        var r := EncryptAndHashName(n, path[|path| - 1], Iv(dirs[parent.value]));
        if !r.NameOK? then None
        else
          var d := SubDir(dirs, parent.value, r.cName);
          if d.Some? && HasIv(dirs[d.value]) then d else None
  }

  function Prepare(n: NameTransform, dirs: Dirs, path: Path): Place {
    if path == [] then Root
    else
      var d := OpenDir(n, dirs, path[..|path| - 1]);
      if d.None? || d.value !in dirs then Failed
      else
        match EncryptAndHashName(n, path[|path| - 1], Iv(dirs[d.value]))
        case NameOK(c) => At(d.value, c)
        case _ => Failed
  }

  // ---------- with the cache ----------

  /** Every slot agrees with a walk from the root. */
  ghost predicate Coherent(n: NameTransform, dirs: Dirs, slots: seq<Slot>) {
    forall i | 0 <= i < |slots| :: slots[i].Used? ==>
      && OpenDir(n, dirs, slots[i].path) == Some(slots[i].dir) && slots[i].dir in dirs
      && slots[i].iv == Iv(dirs[slots[i].dir])
  }

  /** Nothing new in the cache but directories above path. */
  ghost predicate OnlyAbove(before: seq<Slot>, after: seq<Slot>, path: Path) {
    forall i | 0 <= i < |after| :: after[i].Used? ==> Has(before, after[i].path) || after[i].path < path
  }

  /** Some entries gone: what is left still agrees, and is nothing new. */
  lemma Expired(n: NameTransform, dirs: Dirs, first: seq<Slot>, before: seq<Slot>, after: seq<Slot>, path: Path)
    requires Coherent(n, dirs, before) && |before| == |after|
    requires forall i | 0 <= i < |after| :: after[i] == before[i] || after[i] == Free
    ensures Coherent(n, dirs, after)
    ensures OnlyAbove(first, before, path) ==> OnlyAbove(first, after, path)
    ensures forall p: Path :: Has(after, p) ==> Has(before, p)
    ensures first == before ==> OnlyAbove(first, after, path)
  {
    hide OpenDir, Iv;
  }

  lemma AboveTwice(a: seq<Slot>, b: seq<Slot>, c: seq<Slot>, path: Path)
    requires path != [] && OnlyAbove(a, b, path) && OnlyAbove(b, c, path[..|path| - 1])
    ensures OnlyAbove(a, c, path)
  {
    forall i | 0 <= i < |c| && c[i].Used? ensures Has(a, c[i].path) || c[i].path < path {
      if Has(b, c[i].path) {
        var j :| 0 <= j < |b| && b[j].Used? && b[j].path == c[i].path;
        assert Has(a, b[j].path) || b[j].path < path;
      } else {
        assert c[i].path < path[..|path| - 1];
      }
    }
  }

  lemma RootResolves(n: NameTransform, dirs: Dirs, slots: seq<Slot>)
    ensures Prepare(n, dirs, []) == Root && OnlyAbove(slots, slots, [])
  {
  }

  lemma StillMissing(before: seq<Slot>, after: seq<Slot>, p: Path)
    requires OnlyAbove(before, after, p) && !Has(before, p)
    ensures !Has(after, p)
  {
  }

  lemma HitIsOpen(n: NameTransform, dirs: Dirs, slots: seq<Slot>, hit: Slot)
    requires Coherent(n, dirs, slots) && hit.Used? && hit in slots
    ensures OpenDir(n, dirs, hit.path) == Some(hit.dir) && hit.dir in dirs && hit.iv == Iv(dirs[hit.dir])
  {
    hide OpenDir;
  }

  lemma Stored(n: NameTransform, dirs: Dirs, first: seq<Slot>, slots: seq<Slot>, k: nat, s: Slot, path: Path)
    requires Coherent(n, dirs, slots) && OnlyAbove(first, slots, path) && k < |slots| && s.Used? && s.path < path
    requires OpenDir(n, dirs, s.path) == Some(s.dir) && s.dir in dirs && s.iv == Iv(dirs[s.dir])
    ensures Coherent(n, dirs, slots[k := s]) && OnlyAbove(first, slots[k := s], path)
  {
    hide OpenDir, Iv, Has;
  }

  /** One step of a walk: the place of a path, from the directory above it; and that directory, from its own place. */
  lemma PrepareStep(n: NameTransform, dirs: Dirs, path: Path)
    requires path != []
    ensures var up := path[..|path| - 1]; var d := OpenDir(n, dirs, up);
      && Prepare(n, dirs, path) == (if d.None? || d.value !in dirs then Failed
         else match EncryptAndHashName(n, path[|path| - 1], Iv(dirs[d.value]))
              case NameOK(c) => At(d.value, c)
              case _ => Failed)
      && d == (match Prepare(n, dirs, up)
               case Failed => None
               case Root => if ROOT in dirs && HasIv(dirs[ROOT]) then Some(ROOT) else None
               case At(pd, c) => var s := SubDir(dirs, pd, c); if s.Some? && HasIv(dirs[s.value]) then s else None)
  {
    hide EncryptAndHashName, HasIv, Iv;
  }

  class Resolver {
    const v: Volume
    const cache: Cache
    /** Whether the thread that empties the cache is about. */
    const mayExpire: bool

    constructor (v: Volume, mayExpire: bool)
      requires v.Valid()
      ensures Valid() && this.v == v && this.mayExpire == mayExpire && fresh(cache) && fresh(cache.entries)
      ensures forall i | 0 <= i < DIR_CACHE_SIZE :: cache.entries[i] == Free
    {
      this.v, this.mayExpire := v, mayExpire;
      cache := new Cache();
    }

    ghost predicate Valid()
      reads this, v, cache, cache.entries
    {
      v.Valid() && cache.Valid() && Distinct(cache.entries[..]) && Coherent(v.n, v.dirs, cache.entries[..])
    }

    /** The thread that empties the cache runs at any moment, or does not. */
    method MayExpire()
      requires cache.Valid()
      modifies cache.entries
      ensures cache.Valid() && (old(Distinct(cache.entries[..])) ==> Distinct(cache.entries[..]))
      ensures forall i | 0 <= i < DIR_CACHE_SIZE ::
        cache.entries[i] == old(cache.entries[i]) || cache.entries[i] == Free
      ensures !mayExpire ==> cache.entries[..] == old(cache.entries[..])
    {
      var now: bool := *;
      if now && mayExpire {
        cache.Clear();
      }
    }

    method PrepareAtSyscall(path: Path) returns (place: Place)
      requires Valid()
      modifies cache`nextIndex, cache.entries
      ensures Valid()
      ensures place == Prepare(v.n, v.dirs, path)
      ensures OnlyAbove(old(cache.entries[..]), cache.entries[..], path)
      ensures !mayExpire && path != [] && Has(old(cache.entries[..]), path[..|path| - 1]) ==>
        cache.entries[..] == old(cache.entries[..])
      decreases |path|, 0
    {
      hide EncryptAndHashName, HasIv, Iv, AllRepresent, SafeTrace, Distinct, Coherent, OnlyAbove, OpenDir, Prepare,
           Has;
      if path == [] {
        RootResolves(v.n, v.dirs, cache.entries[..]);
        return Root;
      }
      ghost var slots0 := cache.entries[..];
      MayExpire();
      Expired(v.n, v.dirs, slots0, slots0, cache.entries[..], path);
      var child, parentPath := path[|path| - 1], path[..|path| - 1];
      PrepareStep(v.n, v.dirs, path);
      var hit := cache.Lookup(parentPath);
      if hit.Used? {
        HitIsOpen(v.n, v.dirs, cache.entries[..], hit);
        match EncryptAndHashName(v.n, child, hit.iv)
        case NameOK(c) => return At(hit.dir, c);
        case _ => return Failed;
      }
      ghost var slots1 := cache.entries[..];
      var parent := PrepareAtSyscallMyself(parentPath);
      ghost var slots2 := cache.entries[..];
      MayExpire();
      StillMissing(slots1, slots2, parentPath);
      AboveTwice(slots0, slots1, slots2, path);
      Expired(v.n, v.dirs, slots0, slots2, cache.entries[..], path);
      var d: Option<nat>;
      match parent {
        case Failed => return Failed;
        case Root => d := if ROOT in v.dirs then Some(ROOT) else None;
        case At(pd, c) => d := SubDir(v.dirs, pd, c);
      }
      if d.None? || !HasIv(v.dirs[d.value]) {
        return Failed;
      }
      var iv := Iv(v.dirs[d.value]);
      ghost var slots3 := cache.entries[..];
      Stored(v.n, v.dirs, slots0, slots3, cache.nextIndex, Used(parentPath, d.value, iv), path);
      cache.Store(parentPath, d.value, iv);
      ghost var slots4 := cache.entries[..];
      MayExpire();
      Expired(v.n, v.dirs, slots0, slots4, cache.entries[..], path);
      match EncryptAndHashName(v.n, child, iv)
      case NameOK(c) => return At(d.value, c);
      case _ => return Failed;
    }

    method PrepareAtSyscallMyself(path: Path) returns (place: Place)
      requires Valid()
      modifies cache`nextIndex, cache.entries
      ensures Valid()
      ensures place == Prepare(v.n, v.dirs, path)
      ensures OnlyAbove(old(cache.entries[..]), cache.entries[..], path)
      decreases |path|, 1
    {
      if path == [] {
        return Root;
      }
      place := PrepareAtSyscall(path);
    }
  }
}
