/** The two directions of gcfs sync, step by step, against the trees of SyncTree (sync.go, and mkdirAll in cli.go). */
module Sync {
  import opened Bytes
  import opened SyncTree
  import Names
  import C = ClientRuns
  import VolumeTree

  /** Where a sync writes: a directory on disk, or a volume with its way of encrypting names. */
  datatype Side = Disk | Volume(n: Names.NameTransform)

  /** Is the last name of p kept in a name file? */
  predicate HasNameFile(side: Side, p: Path) { side.Volume? && p != [] && Names.IsHashed(side.n, p[|p| - 1]) }

  /** Can the destination give an entry this name? A volume refuses what no file system would list. */
  predicate CanName(side: Side, name: bytes) { side.Volume? ==> Names.IsValidName(name) }

  /** Whatever of p is not there yet can be named. */
  ghost predicate Nameable(side: Side, t: Tree, p: Path) {
    forall i | 0 <= i < |p| :: p[..i + 1] in t || CanName(side, p[i])
  }

  lemma NameableStep(side: Side, t: Tree, p: Path, i: nat)
    requires i < |p|
    ensures Nameable(side, t, p[..i + 1]) <==> Nameable(side, t, p[..i]) && (p[..i + 1] in t || CanName(side, p[i]))
    ensures Nameable(side, t, p) ==> Nameable(side, t, p[..i + 1])
  {
    hide CanName;
    var cur, up := p[..i + 1], p[..i];
    forall j | 0 <= j <= i ensures cur[..j + 1] == p[..j + 1] && cur[j] == p[j] {}
    forall j | 0 <= j < i ensures up[..j + 1] == p[..j + 1] && up[j] == p[j] {}
    if Nameable(side, t, cur) {
      forall j | 0 <= j < i ensures up[..j + 1] in t || CanName(side, up[j]) {
        assert cur[..j + 1] in t || CanName(side, cur[j]);
      }
    }
    if Nameable(side, t, up) && (cur in t || CanName(side, p[i])) {
      forall j | 0 <= j <= i ensures cur[..j + 1] in t || CanName(side, cur[j]) {
        assert j < i ==> up[..j + 1] in t || CanName(side, up[j]);
        assert cur[..i + 1] == cur;
      }
    }
    if Nameable(side, t, p) {
      forall j | 0 <= j <= i ensures cur[..j + 1] in t || CanName(side, cur[j]) {
        assert p[..j + 1] in t || CanName(side, p[j]);
      }
    }
  }

  lemma NothingToName(side: Side, t: Tree)
    ensures Nameable(side, t, [])
  {
  }

  lemma NameableParent(side: Side, t: Tree, p: Path)
    requires p != []
    ensures Nameable(side, t, p) <==> Nameable(side, t, Parent(p)) && (p in t || CanName(side, p[|p| - 1]))
  {
    hide Nameable;
    NameableStep(side, t, p, |p| - 1);
    assert p[..|p|] == p;
  }

  lemma PrefixOrSame(q: Path, p: Path)
    requires q <= p
    ensures q == p || q < p
  {
    if |q| == |p| {
      assert q == p[..|p|];
    }
  }

  lemma PrefixOfParent(p: Path, q: Path)
    requires p != []
    ensures q < p <==> q < Parent(p) || q == Parent(p)
  {
    if q < p {
      assert q == p[..|q|] == Parent(p)[..|q|];
      PrefixOrSame(q, Parent(p));
    }
  }

  /** No file is in the way above p. */
  ghost predicate Clear(t: Tree, p: Path) { forall q | q < p && q in t :: t[q].DirEntry? }

  lemma ClearStep(t: Tree, p: Path)
    requires p != []
    ensures Clear(t, p) <==> Clear(t, Parent(p)) && (Parent(p) in t ==> t[Parent(p)].DirEntry?)
  {
    forall q | q in t ensures q < p <==> q < Parent(p) || q == Parent(p) {
      PrefixOfParent(p, q);
    }
  }

  lemma BlockedAt(t: Tree, p: Path, i: nat)
    requires i < |p| && p[..i] in t && t[p[..i]].FileEntry?
    ensures !Clear(t, p)
  {
    assert p[..i] < p;
  }

  lemma ClearAboveDir(t: Tree, p: Path)
    requires WellFormed(t) && IsDir(t, p)
    ensures Clear(t, p)
  {
    if p != [] {
      forall q | q < p && q in t ensures t[q].DirEntry? {
        AncestorsAreDirs(t, p, q);
      }
    }
  }

  // ---------- making directories ----------

  lemma WithDirsStep(t: Tree, p: Path, i: nat)
    requires i < |p|
    ensures var before, cur := WithDirs(t, p[..i]), p[..i + 1];
      WithDirs(t, cur) == if cur in before then before else before[cur := DirEntry]
  {
    hide WithDirs;
    var before, cur := WithDirs(t, p[..i]), p[..i + 1];
    var after := if cur in before then before else before[cur := DirEntry];
    assert cur[..i] == p[..i];
    forall q ensures (q in WithDirs(t, cur) <==> q in after) && (q in after ==> WithDirs(t, cur)[q] == after[q]) {
      WithDirsAt(t, cur, q);
      WithDirsAt(t, p[..i], q);
      WithDirsAt(t, p[..i], cur);
      assert q <= cur ==> q == cur || q <= p[..i];
    }
    assert WithDirs(t, cur).Keys == after.Keys;
  }

  lemma WithDirsNone(t: Tree)
    ensures WithDirs(t, []) == t
  {
    assert Prefixes([]) == {};
  }

  lemma WithDirsPresent(t: Tree, p: Path)
    requires WellFormed(t) && p in t
    ensures WithDirs(t, p) == t
  {
    hide WithDirs;
    forall q ensures (q in WithDirs(t, p) <==> q in t) && (q in t ==> WithDirs(t, p)[q] == t[q]) {
      WithDirsAt(t, p, q);
      if q <= p {
        PrefixOrSame(q, p);
        if q < p {
          AncestorsAreDirs(t, p, q);
        }
      }
    }
    assert WithDirs(t, p).Keys == t.Keys;
  }

  // ---------- pruning ----------

  /** A source path that lies in a directory below dir has that directory in the source too. */
  ghost predicate SeenClosed(seen: set<Path>, dir: Path) {
    forall p | p in seen && dir < p :: Parent(p) == dir || Parent(p) in seen
  }

  lemma SeenClosedBelow(seen: set<Path>, dir: Path, v: Path)
    requires SeenClosed(seen, dir) && dir < v
    ensures SeenClosed(seen, v)
  {
    forall p | p in seen && v < p ensures Parent(p) == v || Parent(p) in seen {
      assert dir < p;
    }
  }

  function Children(t: Tree, dir: Path): set<Path> { set p | p in t && p != [] && Parent(p) == dir }

  /** The extras that lie at or below entries of dir already dealt with. */
  ghost function Removed(t: Tree, dir: Path, seen: set<Path>, todo: set<Path>): set<Path> {
    set p | p in Extras(t, dir, seen) && p[..|dir| + 1] !in todo
  }

  ghost function Without(t: Tree, dryRun: bool, s: set<Path>): Tree { if dryRun then t else t - s }

  lemma WithoutMore(t: Tree, dryRun: bool, a: set<Path>, b: set<Path>)
    ensures Without(Without(t, dryRun, a), dryRun, b) == Without(t, dryRun, a + b)
  {
    assert t - a - b == t - (a + b);
  }

  lemma WithoutCases(t: Tree, dryRun: bool, s: set<Path>)
    ensures Without(t, dryRun, s) == if dryRun then t else t - s
    ensures Without(t, dryRun, s).Keys <= t.Keys
    ensures s == {} ==> Without(t, dryRun, s) == t
  {
    assert t - {} == t;
  }

  lemma WithoutLast(t: Tree, dryRun: bool, a: set<Path>, b: set<Path>)
    ensures Without(t, dryRun, a + b) == if dryRun || b == {} then Without(t, dryRun, a) else Without(t, dryRun, a) - b
  {
    assert t - a - b == t - (a + b);
    assert a + {} == a;
  }

  lemma NothingBelow(t: Tree, dir: Path, seen: set<Path>)
    requires WellFormed(t) && !IsDir(t, dir)
    ensures Extras(t, dir, seen) == {}
  {
    forall p | p in t && dir < p ensures false {
      AncestorsAreDirs(t, p, dir);
    }
  }

  lemma RemovedNone(t: Tree, dir: Path, seen: set<Path>)
    requires WellFormed(t)
    ensures Removed(t, dir, seen, Children(t, dir)) == {}
  {
    forall p | p in t && dir < p ensures p[..|dir| + 1] in Children(t, dir) {
      var c := p[..|dir| + 1];
      assert Parent(c) == dir;
      PrefixOrSame(c, p);
      if c < p {
        AncestorsAreDirs(t, p, c);
      }
    }
  }

  lemma RemovedWithParent(t: Tree, dir: Path, seen: set<Path>, todo: set<Path>, p: Path)
    requires WellFormed(t) && SeenClosed(seen, dir) && p in t && Parent(p) in Removed(t, dir, seen, todo)
    ensures p in Removed(t, dir, seen, todo)
  {
    assert dir < p && Parent(p)[..|dir| + 1] == p[..|dir| + 1];
  }

  /** Removing the extras at and below some entries leaves every remaining entry its directory. */
  lemma RemovedKeepsForm(t: Tree, dir: Path, seen: set<Path>, todo: set<Path>)
    requires WellFormed(t) && SeenClosed(seen, dir)
    ensures WellFormed(t - Removed(t, dir, seen, todo))
  {
    hide Removed;
    var r := Removed(t, dir, seen, todo);
    forall p | p in t && p !in r ensures p != [] && IsDir(t - r, Parent(p)) {
      if Parent(p) != [] && Parent(p) in r {
        RemovedWithParent(t, dir, seen, todo, p);
      }
    }
  }

  /** What handling one more entry of dir has to remove. */
  lemma RemovedStep(t: Tree, dir: Path, seen: set<Path>, todo: set<Path>, v: Path)
    requires todo <= Children(t, dir) && v in todo
    ensures var r, e, last := Removed(t, dir, seen, todo), Extras(t, v, seen), if v in seen then {} else {v};
      && v in t - r && Extras(t - r, v, seen) == e
      && Removed(t, dir, seen, todo - {v}) == r + e + last
      && |r + e + last| == |r| + |e| + |last|
  {
    var r, e := Removed(t, dir, seen, todo), Extras(t, v, seen);
    assert v[..|dir| + 1] == v;
    forall p | p in t && v < p ensures p[..|dir| + 1] == v && dir < p {}
    assert Extras(t - r, v, seen) == e;
    var after := Removed(t, dir, seen, todo - {v});
    forall p | p in after ensures p in r + e + (if v in seen then {} else {v}) {
      if p[..|dir| + 1] == v {
        PrefixOrSame(v, p);
      }
    }
    assert after == r + e + (if v in seen then {} else {v});
    UnionSize(r, e);
    UnionSize(r + e, if v in seen then {} else {v});
  }

  function Below(t: Tree, dir: Path): set<Path> { set p | p in t && dir < p }

  lemma BelowShrinks(t0: Tree, t1: Tree, dir: Path, v: Path)
    requires t1.Keys <= t0.Keys && v in Children(t0, dir)
    ensures Below(t1, v) < Below(t0, dir)
  {
    assert dir < v;
    assert v in Below(t0, dir) && v !in Below(t1, v);
  }

  /** An extra directory is empty once the extras below it are gone. */
  lemma EmptiedByPruning(t: Tree, dir: Path, v: Path, seen: set<Path>)
    requires SeenClosed(seen, dir) && v in Children(t, dir) && v !in seen
    ensures Children(t - Extras(t, v, seen), v) == {}
  {
    forall p | p in t && p != [] && Parent(p) == v ensures p in Extras(t, v, seen) {
      assert dir < v < p;
    }
  }

  lemma RemovedAll(t: Tree, dir: Path, seen: set<Path>)
    ensures Removed(t, dir, seen, {}) == Extras(t, dir, seen)
  {}

  // ---------- one step of the walk ----------

  /** Directories come before what they hold. */
  ghost predicate ParentsIn(done: set<Path>) {
    forall r | r in done :: r != [] ==> Parent(r) == [] || Parent(r) in done
  }

  /** The destination when the paths in done have been visited. A dry run leaves it alone. */
  ghost function Progress(o: Opts, t0: Tree, src: Tree, base: Path, done: set<Path>): Tree
    requires done <= src.Keys
  {
    if o.dryRun then t0 else Partial(o, t0, src, base, done)
  }

  datatype Outcome = MadeDir | Created | Updated | Kept | Failed

  /** What becomes of one path of the source. */
  function Verdict(o: Opts, side: Side, t0: Tree, v: Path, want: Node): Outcome {
    if want.DirEntry? then MadeDir
    else if v !in t0 then Created
    else if t0[v].FileEntry? && !Need(o, t0[v], want) then Kept
    else if !o.dryRun && HasNameFile(side, v) then Failed
    else Updated
  }

  function Tally(c: Counters, what: Outcome): Counters {
    match what {
      case MadeDir => c.(dirs := c.dirs + 1)
      case Created => c.(created := c.created + 1)
      case Updated => c.(updated := c.updated + 1)
      case Kept => c.(kept := c.kept + 1)
      case Failed => c
    }
  }

  /** The counters when the paths in done have been visited. */
  ghost function CountOf(o: Opts, t0: Tree, src: Tree, base: Path, done: set<Path>): Counters {
    Counters(|NewFiles(t0, src, base) * done|, |UpdatedFiles(o, t0, src, base) * done|,
             |KeptFiles(o, t0, src, base) * done|, |Dirs(src) * done|, 0)
  }

  lemma OneMore(a: set<Path>, done: set<Path>, r: Path)
    requires r !in done
    ensures |a * (done + {r})| == |a * done| + if r in a then 1 else 0
  {
    if r in a {
      assert a * (done + {r}) == a * done + {r};
    } else {
      assert a * (done + {r}) == a * done;
    }
  }

  lemma TallyCounts(o: Opts, side: Side, t0: Tree, src: Tree, base: Path, done: set<Path>, rel: Path)
    requires NoConflict(t0, src, base) && rel in src && rel !in done
    requires Verdict(o, side, t0, base + rel, src[rel]) != Failed
    ensures CountOf(o, t0, src, base, done + {rel})
        == Tally(CountOf(o, t0, src, base, done), Verdict(o, side, t0, base + rel, src[rel]))
  {
    hide Need;
    OneMore(NewFiles(t0, src, base), done, rel);
    OneMore(UpdatedFiles(o, t0, src, base), done, rel);
    OneMore(KeptFiles(o, t0, src, base), done, rel);
    OneMore(Dirs(src), done, rel);
  }

  lemma CountIsTally(o: Opts, t0: Tree, src: Tree, base: Path, n: nat)
    requires n == if o.delete then |Extras(t0, base, At(base, src.Keys))| else 0
    ensures CountOf(o, t0, src, base, src.Keys).(deleted := n) == Count(o, t0, src, base)
  {
    hide Extras, At, Need;
    assert NewFiles(t0, src, base) * src.Keys == NewFiles(t0, src, base);
    assert UpdatedFiles(o, t0, src, base) * src.Keys == UpdatedFiles(o, t0, src, base);
    assert KeptFiles(o, t0, src, base) * src.Keys == KeptFiles(o, t0, src, base);
    assert Dirs(src) * src.Keys == Dirs(src);
  }

  lemma PartialBase(o: Opts, t0: Tree, src: Tree, base: Path, done: set<Path>)
    requires NoConflict(t0, src, base) && done <= src.Keys && WellFormed(src)
    ensures IsDir(Partial(o, t0, src, base, done), base)
  {
    hide Partial, Target;
    PartialAt(o, t0, src, base, done, base);
    assert base[|base|..] == [];
  }

  /** After any part of the walk every entry of the destination has its directory. */
  lemma PartialWellFormed(o: Opts, t0: Tree, src: Tree, base: Path, done: set<Path>)
    requires WellFormed(t0) && WellFormed(src) && NoConflict(t0, src, base) && done <= src.Keys && ParentsIn(done)
    ensures WellFormed(Partial(o, t0, src, base, done))
  {
    hide Partial, Need;
    var t := Partial(o, t0, src, base, done);
    forall p | p in t ensures p != [] && IsDir(t, Parent(p)) {
      PartialAt(o, t0, src, base, done, p);
      if base <= p && p[|base|..] in done {
        var rel := p[|base|..];
        assert p == base + rel && Parent(p) == base + Parent(rel);
        PartialBase(o, t0, src, base, done);
        PartialAt(o, t0, src, base, done, Parent(p));
        assert Parent(p)[|base|..] == Parent(rel);
        assert base + [] == base;
      } else if p in t0 {
        PartialAt(o, t0, src, base, done, Parent(p));
        if base <= Parent(p) {
          assert Parent(p) == base + Parent(p)[|base|..];
        }
      } else {
        PartialAt(o, t0, src, base, done, Parent(p));
        assert Parent(p) <= base;
      }
    }
  }

  /** A path not visited yet is as it was, its directory is there, and visiting it sets it to its target. */
  lemma PartialStep(o: Opts, t0: Tree, src: Tree, base: Path, done: set<Path>, rel: Path)
    requires WellFormed(src) && NoConflict(t0, src, base) && done <= src.Keys
    requires rel in src && rel !in done && (Parent(rel) == [] || Parent(rel) in done)
    ensures var t, v := Partial(o, t0, src, base, done), base + rel;
      && v != [] && IsDir(t, Parent(v))
      && (v in t <==> v in t0) && (v in t ==> t[v] == t0[v] && t[v].DirEntry? == src[rel].DirEntry?)
      && Partial(o, t0, src, base, done + {rel}) == t[v := Target(o, t0, v, src[rel])]
  {
    hide Partial, Target, Need;
    var t, v := Partial(o, t0, src, base, done), base + rel;
    assert v[|base|..] == rel && Parent(v) == base + Parent(rel);
    PartialAt(o, t0, src, base, done, v);
    ParentIsDir(o, t0, src, base, done, rel);
    var t' := Partial(o, t0, src, base, done + {rel});
    var want := t[v := Target(o, t0, v, src[rel])];
    forall p ensures (p in t' <==> p in want) && (p in t' ==> t'[p] == want[p]) {
      PartialAt(o, t0, src, base, done, p);
      PartialAt(o, t0, src, base, done + {rel}, p);
      if base <= p && p[|base|..] == rel {
        assert p == v;
      }
    }
    assert t'.Keys == want.Keys;
  }

  lemma ParentIsDir(o: Opts, t0: Tree, src: Tree, base: Path, done: set<Path>, rel: Path)
    requires WellFormed(src) && NoConflict(t0, src, base) && done <= src.Keys
    requires rel in src && (Parent(rel) == [] || Parent(rel) in done)
    ensures IsDir(Partial(o, t0, src, base, done), Parent(base + rel))
  {
    hide Partial, Need;
    var up := base + Parent(rel);
    assert Parent(base + rel) == up && up[|base|..] == Parent(rel);
    PartialAt(o, t0, src, base, done, up);
    PartialBase(o, t0, src, base, done);
    assert base + [] == base;
  }

  lemma PresentIsNameable(side: Side, t: Tree, p: Path)
    requires WellFormed(t) && IsDir(t, p)
    ensures Nameable(side, t, p)
  {
    forall i | 0 <= i < |p| ensures p[..i + 1] in t || CanName(side, p[i]) {
      PrefixOrSame(p[..i + 1], p);
      if p[..i + 1] < p {
        AncestorsAreDirs(t, p, p[..i + 1]);
      }
    }
  }

  lemma ParentPresent(side: Side, t: Tree, p: Path)
    requires WellFormed(t) && p != [] && IsDir(t, Parent(p))
    ensures WithDirs(t, Parent(p)) == t && Clear(t, p)
    ensures Nameable(side, t, p) <==> p in t || CanName(side, p[|p| - 1])
  {
    hide WithDirs, Clear, Nameable;
    if Parent(p) == [] {
      WithDirsNone(t);
    } else {
      WithDirsPresent(t, Parent(p));
    }
    ClearAboveDir(t, Parent(p));
    ClearStep(t, p);
    PresentIsNameable(side, t, Parent(p));
    NameableParent(side, t, p);
  }

  /** mkdir -p below a directory that is there. */
  lemma WithDirsLast(t: Tree, p: Path)
    requires WellFormed(t) && p != [] && IsDir(t, Parent(p))
    ensures WithDirs(t, p) == if p in t then t else t[p := DirEntry]
  {
    hide WithDirs;
    WithDirsStep(t, p, |p| - 1);
    assert p[..|p|] == p;
    ParentPresent(Disk, t, p);
  }

  /** Where a sync writes: a volume or a directory on disk. */
  method RandomIV() returns (iv: bytes)
    ensures |iv| == 16 && iv != Zeros(16)
  {
    ghost var one: bytes := seq(16, _ => 1);
    assert one[0] == 1;
    iv :| |iv| == 16 && iv != Zeros(16);
  }

  lemma NoChildren(t: Tree, p: Path)
    ensures Children(t, p) == {} <==> forall q | q in t && q != [] :: Parent(q) != p
  {
    if forall q | q in t && q != [] :: Parent(q) != p {
      assert forall q :: q !in Children(t, p);
    } else {
      var q :| q in t && q != [] && Parent(q) == p;
      assert q in Children(t, p);
    }
  }

  /** Nothing fails in the volume, nothing has failed, and the tree is what its directories show. */
  ghost predicate Mirrors(c: C.Client, t: Tree)
    reads c, c.r, c.r.v, c.r.cache, c.r.cache.entries
  {
    c.Valid() && !c.r.v.faulty && VolumeTree.Shows(c.r.v.plain, t)
  }

  class Destination {
    const side: Side
    var tree: Tree

    /** The volume, opened. */
    const client: C.Client?

    constructor OnDisk(tree: Tree)
      ensures Valid() && side == Disk && this.tree == tree && Objs() == {}
    {
      this.side, this.tree, client := Disk, tree, null;
    }

    constructor InVolume(c: C.Client, tree: Tree)
      requires Mirrors(c, tree)
      ensures Valid() && side == Volume(c.r.v.n) && this.tree == tree && client == c
    {
      hide Mirrors;
      this.side, this.tree, client := Volume(c.r.v.n), tree, c;
    }

    /** What an operation may change besides the tree. */
    ghost function Objs(): set<object> {
      if client == null then {} else {client.r.v, client.r.cache, client.r.cache.entries}
    }

    /** On disk the tree is all there is; in a volume its directories show it. */
    ghost predicate Valid()
      reads this, if client == null then {} else {client, client.r}, Objs()
    {
      if client == null then side == Disk
      else
        side == Volume(client.r.v.n) && Mirrors(client, tree)
    }

    method Present(p: Path) returns (there: bool)
      requires Valid() && p != []
      modifies Objs()
      ensures Valid() && (there <==> p in tree)
    {
      hide C.PathStep, C.IsTree, VolumeTree.Shows;
      if client == null {
        return p in tree;
      }
      ghost var plain0 := client.r.v.plain;
      there := client.Do(C.Lookup(p));
      VolumeTree.LookupShown(client.r.v.n, plain0, tree, p, there, client.r.v.plain);
    }

    method Mkdir(p: Path) returns (ok: bool)
      requires Valid()
      modifies `tree, Objs()
      ensures Valid()
      ensures ok <==>
        p != [] && IsDir(old(tree), Parent(p)) && p !in old(tree) && CanName(side, p[|p| - 1])
      ensures tree == if ok then old(tree)[p := DirEntry] else old(tree)
    {
      hide C.PathStep, C.IsTree, VolumeTree.Shows, Names.IsValidName;
      if client == null {
        ok := p != [] && (Parent(p) == [] || (Parent(p) in tree && tree[Parent(p)].DirEntry?)) && p !in tree;
      } else {
        var iv := RandomIV();
        ghost var plain0, id0 := client.r.v.plain, client.r.v.nextId;
        ok := client.Do(C.MakeDir(p, iv));
        VolumeTree.MakeDirShown(client.r.v.n, plain0, id0, tree, p, iv, ok, client.r.v.plain);
      }
      if ok {
        tree := tree[p := DirEntry];
      }
    }

    /** Opens a file for writing; a new one is empty. In a volume, one that has a name file is not opened again. */
    method Open(p: Path) returns (ok: bool)
      requires Valid() && p != []
      modifies `tree, Objs()
      ensures Valid()
      ensures ok <==> && IsDir(old(tree), Parent(p))
                      && if p in old(tree) then old(tree)[p].FileEntry? && !HasNameFile(side, p)
                         else CanName(side, p[|p| - 1])
      ensures tree == if ok && p !in old(tree) then old(tree)[p := FileEntry([], 0)] else old(tree)
    {
      hide C.PathStep, C.IsTree, VolumeTree.Shows, Names.IsValidName, Names.IsHashed;
      if client == null {
        ok := (Parent(p) == [] || (Parent(p) in tree && tree[Parent(p)].DirEntry?))
          && (p !in tree || tree[p].FileEntry?);
      } else {
        ghost var plain0, id0 := client.r.v.plain, client.r.v.nextId;
        ok := client.Do(C.Create(p));
        VolumeTree.CreateShown(client.r.v.n, plain0, id0, tree, p, ok, client.r.v.plain);
      }
      if ok && p !in tree {
        tree := tree[p := FileEntry([], 0)];
      }
    }

    /** Empties the file, copies the contents and sets the time: the directories stay as they are. */
    method Fill(p: Path, content: bytes, mtime: int)
      requires Valid() && p in tree && tree[p].FileEntry?
      modifies `tree
      ensures Valid() && tree == old(tree)[p := FileEntry(content, mtime)]
    {
      hide VolumeTree.Shows;
      if client != null {
        VolumeTree.SameKinds(client.r.v.plain, tree, tree[p := FileEntry(content, mtime)]);
      }
      tree := tree[p := FileEntry(content, mtime)];
    }

    /** Removes a file or an empty directory. */
    method Remove(p: Path) returns (ok: bool)
      requires Valid()
      modifies `tree, Objs()
      ensures Valid()
      ensures ok <==> p in old(tree) && Children(old(tree), p) == {}
      ensures tree == if ok then old(tree) - {p} else old(tree)
    {
      hide C.PathStep, C.IsTree, VolumeTree.Shows, Children;
      NoChildren(tree, p);
      if client == null {
        ok := p in tree && Children(tree, p) == {};
      } else if p in tree && tree[p].DirEntry? {
        var rnd: bytes := *;
        ghost var plain0, id0 := client.r.v.plain, client.r.v.nextId;
        ok := client.Do(C.RemoveDir(p, rnd));
        VolumeTree.RemoveDirShown(client.r.v.n, plain0, id0, tree, p, rnd, ok, client.r.v.plain);
      } else {
        ghost var plain0, id0 := client.r.v.plain, client.r.v.nextId;
        if p in tree { VolumeTree.FileHasNone(plain0, tree, p); }
        ok := client.Do(C.Remove(p));
        VolumeTree.RemoveShown(client.r.v.n, plain0, id0, tree, p, ok, client.r.v.plain);
      }
      if ok {
        tree := tree - {p};
      }
    }

    /**
     It fails only below a file, where it changes nothing, and at a name it cannot give, where the
     directories above that name are made. A file in the last place passes for the directory.
     */
    method MkdirAll(p: Path) returns (ok: bool)
      requires Valid() && WellFormed(tree)
      modifies `tree, Objs()
      ensures Valid()
      ensures ok <==> Clear(old(tree), p) && Nameable(side, old(tree), p)
      ensures ok ==> tree == WithDirs(old(tree), p)
      ensures !ok ==> exists i | 0 <= i < |p| :: tree == WithDirs(old(tree), p[..i])
      ensures !ok && Nameable(side, old(tree), p) ==> tree == old(tree)
    {
      hide Mirrors, WithDirs, Clear, Nameable, CanName;
      ghost var t0 := tree;
      var i := 0;
      assert p[..0] == [];
      WithDirsNone(t0);
      ClearAboveDir(t0, []);
      NothingToName(side, t0);
      while i < |p|
        invariant 0 <= i <= |p| && Valid()
        invariant tree == WithDirs(t0, p[..i]) && Clear(t0, p[..i]) && Nameable(side, t0, p[..i])
      {
        var cur := p[..i + 1];
        assert Parent(cur) == p[..i] && cur[|cur| - 1] == p[i];
        WithDirsStep(t0, p, i);
        WithDirsAt(t0, p[..i], p[..i]);
        WithDirsAt(t0, p[..i], cur);
        ClearStep(t0, cur);
        NameableStep(side, t0, p, i);
        var there := Present(cur);
        if !there {
          ok := Mkdir(cur);
          if !ok {
            if CanName(side, p[i]) {
              WithDirsPresent(t0, p[..i]);
              BlockedAt(t0, p, i);
            }
            return;
          }
        }
        i := i + 1;
      }
      assert p[..|p|] == p;
      ok := true;
    }

    /**
     encryptFile and decryptFileToDisk: make the directories, open, empty, copy, set the time. A file or
     a directory in the way stops it, so does a name it cannot give, and in a volume a file of that name
     that has a name file, which cannot be opened for writing again.
     */
    method WriteFile(p: Path, content: bytes, mtime: int) returns (ok: bool)
      requires Valid() && p != [] && WellFormed(tree)
      modifies `tree, Objs()
      ensures Valid()
      ensures ok <==>
        && Clear(old(tree), p) && Nameable(side, old(tree), p)
        && (p in old(tree) ==> old(tree)[p].FileEntry? && !HasNameFile(side, p))
      ensures ok ==> tree == WithDirs(old(tree), Parent(p))[p := FileEntry(content, mtime)]
      ensures !ok ==> exists i | 0 <= i < |p| :: tree == WithDirs(old(tree), p[..i])
      ensures !ok && Nameable(side, old(tree), p) ==> tree == old(tree)
    {
      hide Mirrors, WithDirs, Clear, Nameable, CanName, HasNameFile;
      ghost var t0 := tree;
      var dir := Parent(p);
      ok := MkdirAll(dir);
      ClearStep(t0, p);
      NameableParent(side, t0, p);
      if !ok {
        ghost var i :| 0 <= i < |dir| && tree == WithDirs(t0, dir[..i]);
        assert dir[..i] == p[..i];
        return;
      }
      assert dir == p[..|p| - 1];
      WithDirsAt(t0, dir, dir);
      WithDirsAt(t0, dir, p);
      if dir in t0 {
        WithDirsPresent(t0, dir);
      }
      ok := Open(p);
      if ok {
        Fill(p, content, mtime);
      } else if dir == [] {
        WithDirsNone(t0);
      }
    }

    /** pruneVolume and pruneDisk. Exactly the extras go, and every removal finds its directory empty. */
    method Prune(dir: Path, seen: set<Path>, dryRun: bool) returns (n: nat)
      requires Valid() && WellFormed(tree) && SeenClosed(seen, dir)
      modifies `tree, Objs()
      ensures Valid()
      ensures tree == Without(old(tree), dryRun, Extras(old(tree), dir, seen))
      ensures n == |Extras(old(tree), dir, seen)|
      decreases Below(tree, dir)
    {
      hide Mirrors, Extras, Removed, Below, WellFormed, SeenClosed, Without;
      ghost var t0 := tree;
      n := 0;
      WithoutCases(t0, dryRun, {});
      if dir != [] && !(dir in tree && tree[dir].DirEntry?) {
        NothingBelow(tree, dir, seen);
        return;
      }
      var todo := Children(tree, dir);
      RemovedNone(t0, dir, seen);
      while todo != {}
        invariant Valid() && todo <= Children(t0, dir)
        invariant tree == Without(t0, dryRun, Removed(t0, dir, seen, todo))
        invariant n == |Removed(t0, dir, seen, todo)|
      {
        var v :| v in todo;
        RemovedStep(t0, dir, seen, todo, v);
        SeenClosedBelow(seen, dir, v);
        RemovedKeepsForm(t0, dir, seen, todo);
        ghost var t1, r, e := tree, Removed(t0, dir, seen, todo), Extras(t0, v, seen);
        WithoutCases(t0, dryRun, r);
        if tree[v].DirEntry? {
          BelowShrinks(t0, tree, dir, v);
          var m := Prune(v, seen, dryRun);
          n := n + m;
        } else {
          NothingBelow(tree, v, seen);
          WithoutCases(tree, dryRun, {});
        }
        WithoutMore(t0, dryRun, r, e);
        if v !in seen {
          if !dryRun {
            EmptiedByPruning(t1, dir, v, seen);
            WithoutCases(t1, dryRun, e);
            var ok := Remove(v);
            assert ok;
          }
          n := n + 1;
        }
        WithoutLast(t0, dryRun, r + e, if v in seen then {} else {v});
        todo := todo - {v};
      }
      RemovedAll(t0, dir, seen);
    }

    /** One call of the walk function: make the directory, or compare the file and write it if need be. */
    method Visit(o: Opts, base: Path, rel: Path, want: Node, ghost t0: Tree, ghost src: Tree, ghost done: set<Path>)
      returns (what: Outcome)
      requires WellFormed(t0) && WellFormed(src) && NoConflict(t0, src, base) && done <= src.Keys && ParentsIn(done)
      requires rel != [] && rel in src && src[rel] == want && rel !in done && (Parent(rel) == [] || Parent(rel) in done)
      requires Valid() && tree == Progress(o, t0, src, base, done) && CanName(side, rel[|rel| - 1])
      modifies `tree, Objs()
      ensures Valid()
      ensures what == Verdict(o, side, t0, base + rel, want)
      ensures tree == Progress(o, t0, src, base, if what == Failed then done else done + {rel})
    {
      hide Mirrors, Partial, WellFormed, NoConflict, ParentsIn, WithDirs, Need, Clear, Nameable, CanName, HasNameFile;
      var v := base + rel;
      assert v[|v| - 1] == rel[|rel| - 1];
      PartialStep(o, t0, src, base, done, rel);
      PartialWellFormed(o, t0, src, base, done);
      if want.DirEntry? {
        if !o.dryRun {
          WithDirsLast(tree, v);
          ParentPresent(side, tree, v);
          ghost var t := tree;
          var made := MkdirAll(v);
          assert tree == t[v := DirEntry];
        }
        return MadeDir;
      }
      var present := Present(v);
      what := if present then Updated else Created;
      if present && tree[v].FileEntry? && !Need(o, tree[v], want) {
        return Kept;
      }
      if !o.dryRun {
        ParentPresent(side, tree, v);
        var ok := WriteFile(v, want.content, want.mtime);
        if !ok {
          what := Failed;
        }
      }
    }
  }
}
