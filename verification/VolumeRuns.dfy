/**
 Whole runs of creating, removing, renaming and listing in one volume, against plain directories
 (file.go, directory.go, common_ops.go, cli.go).
 */
module VolumeRuns {
  import opened Bytes
  import opened Names
  import opened DirImage
  import opened DirOps
  import opened Tidy
  import opened Listing

  /** Directories are named by their numbers; random names and directory IVs come with the operation. */
  datatype Op =
    | Create(d: nat, p: bytes)
    | MakeDir(d: nat, p: bytes, iv: bytes)
    | Remove(d: nat, p: bytes)
    | RemoveDir(d: nat, p: bytes, rnd: bytes)
    | Rename(d: nat, p: bytes, d2: nat, p2: bytes, rnd: bytes)

  /** A volume that has a long-named entry at both ends of a rename, or in the way of a directory, could lose a name. */
  predicate Careful(n: NameTransform, plain: Dirs, d: nat, p: bytes, d2: nat, p2: bytes)
    requires d2 in plain
  {
    IsHashed(n, p2) ==> (d, p) != (d2, p2) && !(p2 in plain[d2] && plain[d2][p2].DirNode?)
  }

  /** When an operation succeeds, if nothing fails. */
  predicate Succeeds(n: NameTransform, plain: Dirs, op: Op) {
    && op.d in plain && (op.Rename? ==> op.d2 in plain)
    && match op
       case Create(d, p) => CanCreate(n, plain, d, p)
       case MakeDir(d, p, iv) => CanMake(plain, d, p) && |iv| == 16 && iv != Zeros(16)
       case Remove(d, p) => FileAt(plain, d, p)
       case RemoveDir(d, p, _) => IsEmptyDir(plain, d, p)
       case Rename(d, p, d2, p2, _) => CanRename(plain, d, p, d2, p2) && Careful(n, plain, d, p, d2, p2)
  }

  /** What it does then. */
  ghost predicate Done(n: NameTransform, before: Dirs, op: Op, after: Dirs)
    requires Succeeds(n, before, op)
  {
    match op
    case Create(d, p) => after == WithFile(before, d, p)
    case MakeDir(d, p, _) => exists id :: id !in before && after == WithDir(before, d, p, id)
    case Remove(d, p) => after == before[d := before[d] - {p}]
    case RemoveDir(d, p, _) => after == WithoutDir(before, d, p)
    case Rename(d, p, d2, p2, _) => after == Renamed(before, d, p, d2, p2)
  }

  /** What may be left of it when the operating system fails on the way. */
  ghost predicate PartlyDone(n: NameTransform, before: Dirs, op: Op, after: Dirs) {
    match op
    case MakeDir(_, _, _) => Succeeds(n, before, op) && Done(n, before, op, after)
    case Remove(_, _) => Succeeds(n, before, op) && Done(n, before, op, after)
    case Rename(_, _, d2, p2, _) => d2 in before && IsEmptyDir(before, d2, p2) && after == WithoutDir(before, d2, p2)
    case _ => false
  }

  /**
   One step of the plain directories. Without failures an operation is done if and only if it succeeds, and else
   nothing is.
   */
  ghost predicate PlainStep(n: NameTransform, faulty: bool, before: Dirs, op: Op, ok: bool, after: Dirs) {
    && (ok ==> Succeeds(n, before, op) && Done(n, before, op, after))
    && (!ok ==> after == before || (faulty && PartlyDone(n, before, op, after)))
    && (!faulty ==> (ok <==> Succeeds(n, before, op)))
  }

  /** What a client can look up to stay clear of the renames that lose a name. */
  predicate LooksCareful(n: NameTransform, dirs: Dirs, d: nat, p: bytes, d2: nat, p2: bytes)
    requires d2 in dirs
  {
    IsValidName(p2) ==>
      var c := EntryName(n, p2, Iv(dirs[d2]));
      IsLongContent(c) ==> (d, p) != (d2, p2) && !(c in dirs[d2] && dirs[d2][c].DirNode?)
  }

  lemma CarefulKeepsName(n: NameTransform, dirs: Dirs, plain: Dirs, d: nat, p: bytes, d2: nat, p2: bytes)
    requires AllRepresent(n, dirs, plain) && d in dirs && d2 in dirs
    ensures d in plain && d2 in plain
    ensures IsValidName(p2) ==> (LooksCareful(n, dirs, d, p, d2, p2) <==> Careful(n, plain, d, p, d2, p2))
    ensures LooksCareful(n, dirs, d, p, d2, p2) ==> !LosesName(n, dirs, plain, d, p, d2, p2)
    ensures AllTidy(dirs) && CanRename(plain, d, p, d2, p2) ==>
      (LooksCareful(n, dirs, d, p, d2, p2) <==> !LosesName(n, dirs, plain, d, p, d2, p2))
  {
    hide IsValidName, EntryName, Represents, IsLongContent, IsHashed;
    assert Represents(n, dirs[d2], plain[d2]);
    if IsValidName(p2) {
      EntryLookup(n, dirs[d2], plain[d2], p2);
      HashedByLength(n, p2, Iv(dirs[d2]));
    }
    if AllTidy(dirs) && CanRename(plain, d, p, d2, p2) && !LooksCareful(n, dirs, d, p, d2, p2) {
      CarefulIsExact(n, dirs, plain, d, p, d2, p2);
    }
  }

  /** A rename that is refused out of care, and could be done, would lose a name. */
  lemma CarefulIsExact(n: NameTransform, dirs: Dirs, plain: Dirs, d: nat, p: bytes, d2: nat, p2: bytes)
    requires AllRepresent(n, dirs, plain) && AllTidy(dirs) && d in dirs && d2 in dirs && d in plain && d2 in plain
    requires CanRename(plain, d, p, d2, p2) && !LooksCareful(n, dirs, d, p, d2, p2)
    ensures LosesName(n, dirs, plain, d, p, d2, p2)
  {
    hide AllRepresent, AllTidy, IsValidName, EntryName, Represents, IsLongContent, BareAt, DirTree.Reach, Iv;
    Both(n, dirs, plain, d);
    Both(n, dirs, plain, d2);
    PlainNamesValid(n, dirs[d], plain[d]);
    EntryLookup(n, dirs[d2], plain[d2], p2);
    if (d, p) != (d2, p2) {
      TidyBareAt(n, dirs, plain, d2, p2);
    }
  }

  /** A volume that is right, and tidy unless something may have failed. */
  ghost predicate Sound(v: Volume)
    reads v
  {
    v.Valid() && (!v.faulty ==> AllTidy(v.dirs))
  }

  method Perform(v: Volume, op: Op) returns (ok: bool)
    requires Sound(v)
    modifies v
    ensures Sound(v) && old(v.trace) <= v.trace && PlainStep(v.n, v.faulty, old(v.plain), op, ok, v.plain)
    ensures IvsKept(old(v.dirs), v.dirs)
    ensures old(v.nextId) <= v.nextId
    ensures op.MakeDir? && v.plain != old(v.plain) ==>
      old(v.nextId) < v.nextId && op.d in old(v.plain) && v.plain == WithDir(old(v.plain), op.d, op.p, old(v.nextId))
  {
    hide AllSafe, Represents, Renamed, IsEmptyDir, WithoutDir, LosesName, EntryName, IsValidName, NameFile, AllTidy,
         CanCreate, CanMake, CanRename, IsTemp, LooksCareful, Careful, SafeTrace, Framed, IvsKept, IvsLess;
    ok := false;
    IvsSame(v.dirs);
    if op.d !in v.dirs || (op.Rename? && op.d2 !in v.dirs) {
      return;
    }
    OwnIv();
    match op {
      case Create(d, p) =>
        ok := v.OpenWrite(d, p);
        FramedKeepsIvs(old(v.dirs), v.dirs, d);
      case MakeDir(d, p, iv) =>
        if |iv| == 16 && iv != Zeros(16) {
          ok := v.MakeDir(d, p, iv);
          FramedKeepsIvs(old(v.dirs), v.dirs, d);
        }
      case Remove(d, p) =>
        ok := v.RemoveFile(d, p);
        FramedKeepsIvs(old(v.dirs), v.dirs, d);
      case RemoveDir(d, p, rnd) =>
        if !v.faulty { TidyNoTemp(v.dirs, d, TEMP_PREFIX + rnd); }
        if TEMP_PREFIX + rnd !in v.dirs[d] {
          ok := v.RemoveDir(d, p, rnd);
          LessKeepsIvs(old(v.dirs), v.dirs);
        }
      case Rename(d, p, d2, p2, rnd) =>
        CarefulKeepsName(v.n, v.dirs, v.plain, d, p, d2, p2);
        CanRenameNames(v.plain, d, p, d2, p2);
        if !v.faulty { TidyNoTemp(v.dirs, d2, TEMP_PREFIX + rnd); }
        if LooksCareful(v.n, v.dirs, d, p, d2, p2) && TEMP_PREFIX + rnd !in v.dirs[d2] {
          ok := v.Rename(d, p, d2, p2, rnd);
          LessKeepsIvs(old(v.dirs), v.dirs);
        }
    }
  }

  /**
   Every run keeps the volume right, at every system call, and its plain directories take one plain step after
   another.
   */
  method Run(v: Volume, ops: seq<Op>) returns (oks: seq<bool>, ghost states: seq<Dirs>)
    requires Sound(v)
    modifies v
    ensures Sound(v) && old(v.trace) <= v.trace && |oks| == |ops| && |states| == |ops| + 1
    ensures states[0] == old(v.plain) && states[|ops|] == v.plain
    ensures forall i | 0 <= i < |ops| :: PlainStep(v.n, v.faulty, states[i], ops[i], oks[i], states[i + 1])
  {
    hide AllRepresent, AllSafe, PlainStep, AllTidy, SafeTrace;
    oks, states := [], [v.plain];
    for i := 0 to |ops|
      invariant Sound(v) && old(v.trace) <= v.trace && |oks| == i && |states| == i + 1
      invariant states[0] == old(v.plain) && states[i] == v.plain
      invariant forall k | 0 <= k < i :: PlainStep(v.n, v.faulty, states[k], ops[k], oks[k], states[k + 1])
    {
      var ok := Perform(v, ops[i]);
      oks, states := oks + [ok], states + [v.plain];
    }
  }

  /** getdents: every entry once, in no particular order. */
  method Getdents(e: Dir) returns (entries: seq<bytes>)
    ensures Enumerates(e, entries)
  {
    entries := [];
    var left := e.Keys;
    while left != {}
      invariant left <= e.Keys
      invariant forall c :: c in entries <==> c in e && c !in left
      invariant forall i, j | 0 <= i < j < |entries| :: entries[i] != entries[j]
    {
      var c :| c in left;
      entries := entries + [c];
      left := left - {c};
    }
  }

  /** After any run, listing any directory gives its plain names and nothing else, each once. */
  method RunThenList(v: Volume, ops: seq<Op>, d: nat)
    returns (oks: seq<bool>, out: seq<(bytes, Node)>, ghost states: seq<Dirs>)
    requires Sound(v)
    modifies v
    ensures |oks| == |ops| && |states| == |ops| + 1 && states[0] == old(v.plain)
    ensures forall i | 0 <= i < |ops| :: PlainStep(v.n, v.faulty, states[i], ops[i], oks[i], states[i + 1])
    ensures d in states[|ops|] ==>
      forall p, node :: (p, node) in out <==> p in states[|ops|][d] && states[|ops|][d][p] == node
    ensures forall i, j | 0 <= i < j < |out| :: out[i].0 != out[j].0
  {
    hide PlainStep, Represents, Enumerates, AllSafe, AllTidy, SafeTrace;
    oks, states := Run(v, ops);
    out := [];
    if d in v.dirs {
      var entries := Getdents(v.dirs[d]);
      out := ListDir(v.n, v.dirs[d], d == 0, entries, v.plain[d]);
    }
  }
}
