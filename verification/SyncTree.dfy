/**
 Trees of directories and files, by path, and what a one-way sync makes of them (sync.go). The
 contents of a file in a volume are its plaintext.
 */
module SyncTree {
  import opened Bytes

  datatype Node = DirEntry | FileEntry(content: bytes, mtime: int)

  /** The root is not listed; every other directory is. */
  type Tree = map<Path, Node>

  function Parent(p: Path): Path
    requires p != []
  {
    p[..|p| - 1]
  }

  ghost predicate IsDir(t: Tree, p: Path) { p == [] || (p in t && t[p].DirEntry?) }

  /** Every entry sits in a directory. */
  ghost predicate WellFormed(t: Tree) {
    forall p | p in t :: p != [] && IsDir(t, Parent(p))
  }

  lemma {:induction false} AncestorsAreDirs(t: Tree, p: Path, q: Path)
    requires WellFormed(t) && p in t && q < p
    ensures IsDir(t, q)
    decreases |p|
  {
    if q != Parent(p) {
      AncestorsAreDirs(t, Parent(p), q);
    }
  }

  function Prefixes(p: Path): set<Path> { set i | 1 <= i <= |p| :: p[..i] }

  lemma PrefixesAre(p: Path, q: Path)
    ensures q in Prefixes(p) <==> q != [] && q <= p
  {
    if q != [] && q <= p {
      assert q == p[..|q|];
    }
  }

  /** mkdir -p. */
  function WithDirs(t: Tree, p: Path): Tree {
    map q | q in t.Keys + Prefixes(p) :: if q in t then t[q] else DirEntry
  }

  lemma WithDirsAt(t: Tree, p: Path, q: Path)
    ensures q in WithDirs(t, p) <==> q in t || (q != [] && q <= p)
    ensures q in WithDirs(t, p) ==> WithDirs(t, p)[q] == if q in t then t[q] else DirEntry
  {
    PrefixesAre(p, q);
  }

  datatype Opts = Opts(window: nat, delete: bool, dryRun: bool, checksum: bool)

  /** withinWindow: two times no more than w seconds apart. */
  predicate WithinWindow(a: int, b: int, w: int) {
    var d := a - b;
    (if d < 0 then -d else d) <= w
  }

  /** Must an existing file be written again? Equal hashes are taken to mean equal contents. */
  predicate Need(o: Opts, have: Node, want: Node)
    requires have.FileEntry? && want.FileEntry?
  {
    if o.checksum then |have.content| != |want.content| || have.content != want.content
    else !(|have.content| == |want.content| && WithinWindow(have.mtime, want.mtime, o.window))
  }

  /** What the sync leaves at a path where the source has want. */
  function Target(o: Opts, t0: Tree, v: Path, want: Node): Node {
    if want.FileEntry? && v in t0 && t0[v].FileEntry? && !Need(o, t0[v], want) then t0[v] else want
  }

  /** Where the source and the destination both have something it is of one kind, and no file is in the way of base. */
  ghost predicate NoConflict(t0: Tree, src: Tree, base: Path) {
    && (forall q | q in t0 && q <= base :: t0[q].DirEntry?)
    && (forall rel | rel in src && base + rel in t0 :: t0[base + rel].DirEntry? == src[rel].DirEntry?)
  }

  /** Paths of the source, seen from the destination. */
  function At(base: Path, rels: set<Path>): set<Path> { set r | r in rels :: base + r }

  lemma AtHas(base: Path, rels: set<Path>, p: Path)
    ensures p in At(base, rels) <==> base <= p && p[|base|..] in rels
  {
    if base <= p {
      assert p == base + p[|base|..];
    }
    forall r | p == base + r ensures base <= p && p[|base|..] == r {}
  }

  /** The destination once the paths in done have been handled. */
  function Partial(o: Opts, t0: Tree, src: Tree, base: Path, done: set<Path>): Tree
    requires done <= src.Keys
  {
    map p | p in WithDirs(t0, base).Keys + At(base, done) ::
      if base <= p && p[|base|..] in done then Target(o, t0, p, src[p[|base|..]]) else WithDirs(t0, base)[p]
  }

  lemma PartialAt(o: Opts, t0: Tree, src: Tree, base: Path, done: set<Path>, p: Path)
    requires done <= src.Keys
    ensures var t := Partial(o, t0, src, base, done);
      if base <= p && p[|base|..] in done then p in t && t[p] == Target(o, t0, p, src[p[|base|..]])
      else (p in t <==> p in t0 || (p != [] && p <= base)) && (p in t ==> t[p] == if p in t0 then t0[p] else DirEntry)
  {
    hide WithDirs, At, Target;
    AtHas(base, done, p);
    WithDirsAt(t0, base, p);
  }

  /** Entries below dir that the source does not have. */
  function Extras(t: Tree, dir: Path, seen: set<Path>): set<Path> {
    set p | p in t && dir < p && p !in seen
  }

  /** The destination after a completed run. */
  function Synced(o: Opts, t0: Tree, src: Tree, base: Path): Tree {
    if o.dryRun then t0
    else
      var t := Partial(o, t0, src, base, src.Keys);
      if o.delete then t - Extras(t, base, At(base, src.Keys)) else t
  }

  // ---------- what a completed run means ----------

  /** Below base: everything the source has, and without -delete also what was there before. */
  lemma SyncedBelow(o: Opts, t0: Tree, src: Tree, base: Path, p: Path)
    requires !o.dryRun && base < p
    ensures var t, rel := Synced(o, t0, src, base), p[|base|..];
      && (p in t <==> rel in src || (!o.delete && p in t0))
      && (p in t ==> t[p] == if rel in src then Target(o, t0, p, src[rel]) else t0[p])
  {
    hide Partial, At, Target;
    PartialAt(o, t0, src, base, src.Keys, p);
    AtHas(base, src.Keys, p);
  }

  /** Outside base a sync only adds the directories that lead to base. */
  lemma SyncedOutside(o: Opts, t0: Tree, src: Tree, base: Path, p: Path)
    requires WellFormed(src) && !o.dryRun && !(base < p)
    ensures var t := Synced(o, t0, src, base);
      && (p in t <==> p in t0 || (p != [] && p <= base))
      && (p in t ==> t[p] == if p in t0 then t0[p] else DirEntry)
  {
    hide Partial, At, Target;
    PartialAt(o, t0, src, base, src.Keys, p);
    if base <= p {
      assert p[|base|..] == [];
    }
  }

  /** With -checksum and -delete, exactly the source is under base: names, kinds and contents. */
  lemma SyncedIsSource(o: Opts, t0: Tree, src: Tree, base: Path, p: Path)
    requires NoConflict(t0, src, base) && o.checksum && o.delete && !o.dryRun && base < p
    ensures var t, rel := Synced(o, t0, src, base), p[|base|..];
      && (p in t <==> rel in src)
      && (p in t ==> t[p].DirEntry? == src[rel].DirEntry? && (t[p].FileEntry? ==> t[p].content == src[rel].content))
  {
    hide Synced;
    SyncedBelow(o, t0, src, base, p);
    assert p == base + p[|base|..];
  }

  /**
   A file both sides have: it stays if contents are compared and equal, or sizes are compared and equal and
   the times are at most the window apart, whichever is later; otherwise it is written.
   */
  lemma SyncedFile(o: Opts, t0: Tree, src: Tree, base: Path, rel: Path)
    requires !o.dryRun && rel != [] && rel in src && src[rel].FileEntry?
    requires base + rel in t0 && t0[base + rel].FileEntry?
    ensures base + rel in Synced(o, t0, src, base)
    ensures var t, have, want := Synced(o, t0, src, base), t0[base + rel], src[rel];
      && (o.checksum ==> t[base + rel] == if have.content == want.content then have else want)
      && (!o.checksum ==>
            t[base + rel] == if && |have.content| == |want.content|
                                && have.mtime <= want.mtime + o.window && want.mtime <= have.mtime + o.window
                             then have else want)
  {
    hide Synced;
    assert (base + rel)[|base|..] == rel;
    SyncedBelow(o, t0, src, base, base + rel);
  }

  // ---------- what a run counts ----------

  datatype Counters = Counters(created: nat, updated: nat, kept: nat, dirs: nat, deleted: nat)

  function Dirs(src: Tree): set<Path> { set r | r in src && src[r].DirEntry? }

  function Files(src: Tree): set<Path> { set r | r in src && src[r].FileEntry? }

  function NewFiles(t0: Tree, src: Tree, base: Path): set<Path> {
    set r | r in src && src[r].FileEntry? && base + r !in t0
  }

  function UpdatedFiles(o: Opts, t0: Tree, src: Tree, base: Path): set<Path> {
    set r | r in src && src[r].FileEntry? && base + r in t0 && t0[base + r].FileEntry? && Need(o, t0[base + r], src[r])
  }

  function KeptFiles(o: Opts, t0: Tree, src: Tree, base: Path): set<Path> {
    set r | r in src && src[r].FileEntry? && base + r in t0 && t0[base + r].FileEntry? && !Need(o, t0[base + r], src[r])
  }

  function Count(o: Opts, t0: Tree, src: Tree, base: Path): Counters {
    Counters(|NewFiles(t0, src, base)|, |UpdatedFiles(o, t0, src, base)|, |KeptFiles(o, t0, src, base)|, |Dirs(src)|,
             if o.delete then |Extras(t0, base, At(base, src.Keys))| else 0)
  }

  lemma UnionSize<T>(a: set<T>, b: set<T>)
    requires a !! b
    ensures |a + b| == |a| + |b|
  {
    assert (a + b) - a == b;
  }

  /** Every regular file of the source is counted once. */
  lemma FilesCounted(o: Opts, t0: Tree, src: Tree, base: Path)
    requires NoConflict(t0, src, base)
    ensures var c := Count(o, t0, src, base); c.created + c.updated + c.kept == |Files(src)|
  {
    hide Need, Extras, At;
    var a, b, c := NewFiles(t0, src, base), UpdatedFiles(o, t0, src, base), KeptFiles(o, t0, src, base);
    assert a + b + c == Files(src);
    UnionSize(a, b);
    UnionSize(a + b, c);
  }

  /** The counters, in a dry run too: a file both sides have is kept or updated by the same rule. */
  lemma CountedFiles(o: Opts, t0: Tree, src: Tree, base: Path, both: set<Path>, same: set<Path>)
    requires both == set r | r in src && src[r].FileEntry? && base + r in t0 && t0[base + r].FileEntry?
    requires o.checksum ==> same == set r | r in both && t0[base + r].content == src[r].content
    requires !o.checksum ==>
      same == set r |
      && r in both && |t0[base + r].content| == |src[r].content|
      && t0[base + r].mtime <= src[r].mtime + o.window && src[r].mtime <= t0[base + r].mtime + o.window
    ensures var c := Count(o, t0, src, base);
      && c.kept == |same| && c.updated == |both - same|
      && c.created == |set r | r in src && src[r].FileEntry? && base + r !in t0|
      && c.dirs == |set r | r in src && src[r].DirEntry?|
      && c.deleted == if o.delete then |set p | p in t0 && base < p && p[|base|..] !in src| else 0
  {
    hide At, Need;
    forall r | r in both ensures Need(o, t0[base + r], src[r]) <==> r !in same {
      NeedIs(o, t0[base + r], src[r]);
    }
    assert KeptFiles(o, t0, src, base) == same && UpdatedFiles(o, t0, src, base) == both - same;
    forall p ensures p in At(base, src.Keys) <==> base <= p && p[|base|..] in src {
      AtHas(base, src.Keys, p);
    }
    assert Extras(t0, base, At(base, src.Keys)) == set p | p in t0 && base < p && p[|base|..] !in src;
  }

  lemma NeedIs(o: Opts, have: Node, want: Node)
    requires have.FileEntry? && want.FileEntry?
    ensures o.checksum ==> (Need(o, have, want) <==> have.content != want.content)
    ensures !o.checksum ==>
      (!Need(o, have, want) <==> && |have.content| == |want.content|
                                 && have.mtime <= want.mtime + o.window && want.mtime <= have.mtime + o.window)
  {
  }

  /** A written file carries the contents and the time of its source, whatever the options. */
  lemma WrittenFiles(o: Opts, t0: Tree, src: Tree, base: Path, rel: Path)
    requires rel in NewFiles(t0, src, base) + UpdatedFiles(o, t0, src, base) && rel != [] && !o.dryRun
    ensures base + rel in Synced(o, t0, src, base) && Synced(o, t0, src, base)[base + rel] == src[rel]
  {
    hide Synced, Need;
    assert (base + rel)[|base|..] == rel;
    SyncedBelow(o, t0, src, base, base + rel);
  }

  lemma SyncedHas(o: Opts, t0: Tree, src: Tree, base: Path, rel: Path)
    requires WellFormed(src) && !o.dryRun && rel in src
    ensures base + rel in Synced(o, t0, src, base)
    ensures Synced(o, t0, src, base)[base + rel] == Target(o, t0, base + rel, src[rel])
  {
    hide Synced, Target;
    assert (base + rel)[|base|..] == rel;
    SyncedBelow(o, t0, src, base, base + rel);
  }

  lemma TargetIsSettled(o: Opts, t0: Tree, v: Path, want: Node)
    requires want.FileEntry?
    ensures Target(o, t0, v, want).FileEntry? && !Need(o, Target(o, t0, v, want), want)
  {}

  lemma SyncedNoConflict(o: Opts, t0: Tree, src: Tree, base: Path)
    requires NoConflict(t0, src, base) && WellFormed(src) && !o.dryRun
    ensures NoConflict(Synced(o, t0, src, base), src, base)
  {
    hide Synced;
    var t := Synced(o, t0, src, base);
    forall q | q in t && q <= base ensures t[q].DirEntry? {
      SyncedOutside(o, t0, src, base, q);
    }
    forall rel | rel in src && base + rel in t ensures t[base + rel].DirEntry? == src[rel].DirEntry? {
      SyncedHas(o, t0, src, base, rel);
    }
  }

  lemma SecondRunCounts(o: Opts, t0: Tree, src: Tree, base: Path)
    requires NoConflict(t0, src, base) && WellFormed(src) && !o.dryRun
    ensures Count(o, Synced(o, t0, src, base), src, base) == Counters(0, 0, |Files(src)|, |Dirs(src)|, 0)
  {
    hide Synced, Target, Need, At;
    var t := Synced(o, t0, src, base);
    forall rel | rel in src && src[rel].FileEntry?
      ensures base + rel in t && t[base + rel].FileEntry? && !Need(o, t[base + rel], src[rel])
    {
      SyncedHas(o, t0, src, base, rel);
      TargetIsSettled(o, t0, base + rel, src[rel]);
    }
    assert NewFiles(t, src, base) == {} && UpdatedFiles(o, t, src, base) == {};
    assert KeptFiles(o, t, src, base) == Files(src);
    if o.delete {
      forall p | p in t && base < p ensures p in At(base, src.Keys) {
        SyncedBelow(o, t0, src, base, p);
        AtHas(base, src.Keys, p);
      }
      assert Extras(t, base, At(base, src.Keys)) == {};
    }
  }

  /** A second run of an unchanged source writes and deletes nothing and leaves the destination as it is. */
  lemma SecondRunIsIdle(o: Opts, t0: Tree, src: Tree, base: Path)
    requires NoConflict(t0, src, base) && WellFormed(src) && !o.dryRun
    ensures var t1 := Synced(o, t0, src, base);
      && NoConflict(t1, src, base)
      && Count(o, t1, src, base) == Counters(0, 0, |Files(src)|, |Dirs(src)|, 0)
      && Synced(o, t1, src, base) == t1
  {
    hide Synced, Count, NoConflict, WellFormed, Need;
    SyncedNoConflict(o, t0, src, base);
    SecondRunCounts(o, t0, src, base);
    var t1 := Synced(o, t0, src, base);
    var t2 := Synced(o, t1, src, base);
    forall p ensures (p in t1 <==> p in t2) && (p in t1 ==> t1[p] == t2[p]) {
      if base < p {
        SyncedBelow(o, t0, src, base, p);
        SyncedBelow(o, t1, src, base, p);
      } else {
        SyncedOutside(o, t0, src, base, p);
        SyncedOutside(o, t1, src, base, p);
      }
    }
    assert t1.Keys == t2.Keys;
  }
}
