/** Whole runs of gcfs sync in both directions, and what a push followed by a restore gives back (sync.go). */
module SyncRuns {
  import opened Bytes
  import opened Names
  import opened SyncTree
  import opened Sync

  // ---------- encryptSync ----------

  /** An enumeration of the source that lists a directory before what it holds. */
  ghost predicate IsWalk(src: Tree, order: seq<Path>) {
    && (forall r :: r in order <==> r in src)
    && (forall i | 0 <= i < |order| ::
          order[i] != [] && order[i] !in order[..i] && (Parent(order[i]) == [] || Parent(order[i]) in order[..i]))
  }

  ghost function Visited(order: seq<Path>, i: nat): set<Path>
    requires i <= |order|
  {
    set r | r in order[..i]
  }

  lemma VisitedStep(src: Tree, order: seq<Path>, i: nat)
    requires IsWalk(src, order) && i < |order|
    ensures order[i] != [] && order[i] in src && order[i] !in Visited(order, i)
    ensures Parent(order[i]) == [] || Parent(order[i]) in Visited(order, i)
    ensures Visited(order, i + 1) == Visited(order, i) + {order[i]} && Visited(order, i + 1) <= src.Keys
  {
    assert order[..i + 1] == order[..i] + [order[i]];
    assert order[i] in order;
    forall r | r in order[..i] ensures r in src {
      assert r in order;
    }
  }

  lemma VisitedAll(src: Tree, order: seq<Path>)
    requires IsWalk(src, order)
    ensures Visited(order, |order|) == src.Keys
  {
    assert order[..|order|] == order;
    forall r ensures r in Visited(order, |order|) <==> r in src {
      assert r in order <==> r in src;
    }
  }

  lemma VisitedClosed(src: Tree, order: seq<Path>, i: nat)
    requires IsWalk(src, order) && i <= |order|
    ensures ParentsIn(Visited(order, i))
  {
    forall r | r in Visited(order, i) ensures Parent(r) == [] || Parent(r) in Visited(order, i) {
      var k :| 0 <= k < i && order[k] == r;
      assert order[..k] == order[..i][..k];
    }
  }

  lemma AtStep(base: Path, done: set<Path>, r: Path)
    ensures At(base, done + {r}) == At(base, done) + {base + r}
  {}

  lemma ParentInSource(src: Tree, base: Path, p: Path)
    requires WellFormed(src) && p in At(base, src.Keys) && base < p
    ensures Parent(p) == base || Parent(p) in At(base, src.Keys)
  {
    hide At;
    AtHas(base, src.Keys, p);
    AtHas(base, src.Keys, Parent(p));
    var rel := p[|base|..];
    assert p == base + rel;
    assert Parent(p) == base + Parent(rel);
    if Parent(rel) == [] {
      assert base + [] == base;
    } else {
      assert Parent(p)[|base|..] == Parent(rel);
    }
  }

  lemma SourceIsClosed(src: Tree, base: Path)
    requires WellFormed(src)
    ensures SeenClosed(At(base, src.Keys), base)
  {
    hide At, WellFormed;
    forall p | p in At(base, src.Keys) && base < p ensures Parent(p) == base || Parent(p) in At(base, src.Keys) {
      ParentInSource(src, base, p);
    }
  }

  /** The walk adds no extras and touches none. */
  lemma SameExtras(o: Opts, t0: Tree, src: Tree, base: Path)
    ensures Extras(Partial(o, t0, src, base, src.Keys), base, At(base, src.Keys))
        == Extras(t0, base, At(base, src.Keys))
  {
    hide Partial, At, Target;
    forall p | base < p && p !in At(base, src.Keys) ensures p in Partial(o, t0, src, base, src.Keys) <==> p in t0 {
      PartialAt(o, t0, src, base, src.Keys, p);
      AtHas(base, src.Keys, p);
    }
  }

  lemma ProgressNone(o: Opts, t0: Tree, src: Tree, base: Path)
    ensures Progress(o, t0, src, base, {}) == if o.dryRun then t0 else WithDirs(t0, base)
  {
    hide Target;
    assert At(base, {}) == {};
    assert Partial(o, t0, src, base, {}) == WithDirs(t0, base);
  }

  /** The two last steps: prune, and report. */
  method Finish(o: Opts, base: Path, dst: Destination, seen: set<Path>, c0: Counters, ghost t0: Tree, ghost src: Tree)
    returns (c: Counters)
    requires WellFormed(t0) && WellFormed(src) && NoConflict(t0, src, base)
    requires dst.Valid() && dst.tree == Progress(o, t0, src, base, src.Keys) && seen == At(base, src.Keys)
    requires c0 == CountOf(o, t0, src, base, src.Keys)
    modifies dst`tree, dst.Objs()
    ensures dst.Valid() && dst.tree == Synced(o, t0, src, base) && c == Count(o, t0, src, base)
  {
    hide Mirrors, Partial, At, Extras, CountOf, Count, WellFormed, NoConflict, ParentsIn, SeenClosed;
    var n := 0;
    if o.delete {
      AllClosed(src);
      PartialWellFormed(o, t0, src, base, src.Keys);
      SourceIsClosed(src, base);
      SameExtras(o, t0, src, base);
      n := dst.Prune(base, seen, o.dryRun);
    }
    CountIsTally(o, t0, src, base, n);
    c := c0.(deleted := n);
  }

  lemma AllClosed(src: Tree)
    requires WellFormed(src)
    ensures ParentsIn(src.Keys)
  {}

  /** Names as a file system lists them. */
  ghost predicate Listed(side: Side, src: Tree) { forall r | r in src && r != [] :: CanName(side, r[|r| - 1]) }

  /**
   Pushing a plain tree into a volume. The run dies exactly when the base cannot be made because of a name
   the volume refuses, or a file that has a name file must be written again. Otherwise the destination is the
   synced tree, and the report counts what there was to do whether or not it was done.
   */
  method EncryptSync(o: Opts, base: Path, src: Tree, order: seq<Path>, dst: Destination)
    returns (died: bool, c: Counters, ghost done: set<Path>)
    requires WellFormed(dst.tree) && WellFormed(src) && NoConflict(dst.tree, src, base) && IsWalk(src, order)
    requires dst.Valid() && Listed(dst.side, src)
    modifies dst`tree, dst.Objs()
    ensures dst.Valid()
    ensures died <==>
      || (!o.dryRun && !Nameable(dst.side, old(dst.tree), base))
      || exists rel | rel in src :: Verdict(o, dst.side, old(dst.tree), base + rel, src[rel]) == Failed
    ensures !died ==> dst.tree == Synced(o, old(dst.tree), src, base) && c == Count(o, old(dst.tree), src, base)
    ensures died && Nameable(dst.side, old(dst.tree), base) ==>
      && done <= src.Keys && dst.tree == Partial(o, old(dst.tree), src, base, done)
      && forall rel | rel in done :: Verdict(o, dst.side, old(dst.tree), base + rel, src[rel]) != Failed
    ensures died && !Nameable(dst.side, old(dst.tree), base) ==>
      exists i | 0 <= i < |base| :: dst.tree == WithDirs(old(dst.tree), base[..i])
  {
    hide Mirrors, Partial, At, Synced, CountOf, Count, WellFormed, NoConflict, ParentsIn, IsWalk, Verdict, Visited,
         WithDirs, Nameable, CanName;
    ghost var t0 := dst.tree;
    done := {};
    c := Counters(0, 0, 0, 0, 0);
    NothingToName(dst.side, t0);
    if base != [] && !o.dryRun {
      BaseIsFree(t0, src, base);
      var made := dst.MkdirAll(base);
      if !made {
        died := true;
        return;
      }
    }
    ProgressNone(o, t0, src, base);
    StartOfWalk(o, t0, src, base, order);
    var seen: set<Path> := {};
    for i := 0 to |order|
      invariant dst.Valid() && done == Visited(order, i) && done <= src.Keys
      invariant dst.tree == Progress(o, t0, src, base, done)
      invariant seen == At(base, done) && c == CountOf(o, t0, src, base, done)
      invariant forall rel | rel in done :: Verdict(o, dst.side, t0, base + rel, src[rel]) != Failed
    {
      var rel := order[i];
      VisitedStep(src, order, i);
      VisitedClosed(src, order, i);
      AtStep(base, done, rel);
      seen := seen + {base + rel};
      var what := dst.Visit(o, base, rel, src[rel], t0, src, done);
      if what == Failed {
        FailsForReal(o, dst.side, t0, base + rel, src[rel]);
        died := true;
        return;
      }
      TallyCounts(o, dst.side, t0, src, base, done, rel);
      c := Tally(c, what);
      done := done + {rel};
    }
    VisitedAll(src, order);
    died := false;
    c := Finish(o, base, dst, seen, c, t0, src);
  }

  lemma BaseIsFree(t0: Tree, src: Tree, base: Path)
    requires NoConflict(t0, src, base)
    ensures Clear(t0, base)
  {}

  lemma StartOfWalk(o: Opts, t0: Tree, src: Tree, base: Path, order: seq<Path>)
    ensures Visited(order, 0) == {} && At(base, {}) == {}
    ensures CountOf(o, t0, src, base, {}) == Counters(0, 0, 0, 0, 0)
    ensures base == [] ==> WithDirs(t0, base) == t0
  {
    hide NewFiles, UpdatedFiles, KeptFiles, WithDirs;
    WithDirsNone(t0);
    assert NewFiles(t0, src, base) * {} == {} && UpdatedFiles(o, t0, src, base) * {} == {};
    assert KeptFiles(o, t0, src, base) * {} == {} && Dirs(src) * {} == {};
  }

  /** When a run dies: only a real run into a volume, and only at an update of a file that has a name file. */
  lemma FailsForReal(o: Opts, side: Side, t0: Tree, v: Path, want: Node)
    ensures Verdict(o, side, t0, v, want) == Failed <==>
      !o.dryRun && HasNameFile(side, v) && want.FileEntry? && v in t0 && !(t0[v].FileEntry? && !Need(o, t0[v], want))
  {}

  /** For valid names: it is an update of a file whose entry, under whatever IV, is a hashed one. */
  lemma FailsAtLongEntry(o: Opts, n: NameTransform, t0: Tree, v: Path, want: Node, iv: bytes)
    requires v != [] && IsValidName(v[|v| - 1])
    ensures Verdict(o, Volume(n), t0, v, want) == Failed <==>
      && !o.dryRun && IsLongContent(EntryName(n, v[|v| - 1], iv))
      && want.FileEntry? && v in t0 && !(t0[v].FileEntry? && !Need(o, t0[v], want))
  {
    HashedByLength(n, v[|v| - 1], iv);
  }

  /** After a completed run the destination is ready for the next one, which cannot die. */
  lemma SecondRunSucceeds(o: Opts, t0: Tree, src: Tree, base: Path, side: Side, rel: Path)
    requires WellFormed(t0) && WellFormed(src) && NoConflict(t0, src, base) && !o.dryRun
    ensures WellFormed(Synced(o, t0, src, base)) && Nameable(side, Synced(o, t0, src, base), base)
    ensures rel in src ==> Verdict(o, side, Synced(o, t0, src, base), base + rel, src[rel]) != Failed
  {
    hide Partial, At, Extras, NoConflict, WellFormed, Need, ParentsIn, SeenClosed;
    AllClosed(src);
    PartialWellFormed(o, t0, src, base, src.Keys);
    SourceIsClosed(src, base);
    RemovedAll(Partial(o, t0, src, base, src.Keys), base, At(base, src.Keys));
    RemovedKeepsForm(Partial(o, t0, src, base, src.Keys), base, At(base, src.Keys), {});
    SyncedBase(o, t0, src, base);
    PresentIsNameable(side, Synced(o, t0, src, base), base);
    if rel in src {
      SyncedHas(o, t0, src, base, rel);
      if src[rel].FileEntry? {
        TargetIsSettled(o, t0, base + rel, src[rel]);
      }
    }
  }

  lemma SyncedBase(o: Opts, t0: Tree, src: Tree, base: Path)
    requires WellFormed(src) && NoConflict(t0, src, base) && !o.dryRun
    ensures IsDir(Synced(o, t0, src, base), base)
  {
    hide Synced;
    SyncedOutside(o, t0, src, base, base);
  }

  // ---------- decryptSync ----------

  /** What a volume holds below base, seen from base. */
  function SubTree(vol: Tree, base: Path): Tree {
    map r | r in (set p | p in vol && base < p :: p[|base|..]) && base + r in vol :: vol[base + r]
  }

  lemma SubTreeAt(vol: Tree, base: Path, r: Path)
    ensures r in SubTree(vol, base) <==> r != [] && base + r in vol
    ensures r in SubTree(vol, base) ==> SubTree(vol, base)[r] == vol[base + r]
  {
    assert (base + r)[|base|..] == r;
    forall p | base < p && p[|base|..] == r ensures p == base + r {}
    if r in SubTree(vol, base) {
      var p :| p in vol && base < p && p[|base|..] == r;
      assert p == base + r;
    }
  }

  lemma SubTreeWellFormed(vol: Tree, base: Path)
    requires WellFormed(vol)
    ensures WellFormed(SubTree(vol, base))
  {
    hide SubTree;
    forall r | r in SubTree(vol, base) ensures r != [] && IsDir(SubTree(vol, base), Parent(r)) {
      SubTreeAt(vol, base, r);
      SubTreeAt(vol, base, Parent(r));
      assert Parent(base + r) == base + Parent(r);
    }
  }

  lemma AtRoot(rels: set<Path>)
    ensures At([], rels) == rels
  {
    forall p ensures p in At([], rels) <==> p in rels {
      AtHas([], rels, p);
      assert p[0..] == p;
    }
  }

  /** The paths below d that lie at or below entries of d already walked. */
  ghost function Walked(src: Tree, d: Path, todo: set<Path>): set<Path> {
    set r | r in Below(src, d) && r[..|d| + 1] !in todo
  }

  lemma WalkedNone(src: Tree, d: Path)
    requires WellFormed(src)
    ensures Walked(src, d, Children(src, d)) == {}
  {
    forall r | r in Below(src, d) ensures r[..|d| + 1] in Children(src, d) {
      var c := r[..|d| + 1];
      assert Parent(c) == d;
      PrefixOrSame(c, r);
      if c < r {
        AncestorsAreDirs(src, r, c);
      }
    }
  }

  lemma WalkedAll(src: Tree, d: Path)
    ensures Walked(src, d, {}) == Below(src, d)
  {}

  lemma WalkedStep(src: Tree, d: Path, todo: set<Path>, r: Path)
    requires todo <= Children(src, d) && r in todo
    ensures var w := Walked(src, d, todo);
      && r !in w && w !! Below(src, r) && r !in Below(src, r) && Below(src, r) + {r} <= Below(src, d)
      && Walked(src, d, todo - {r}) == w + {r} + Below(src, r)
  {
    assert r[..|d| + 1] == r && d < r;
    forall p | p in Below(src, r) ensures p[..|d| + 1] == r && d < p {}
    forall p | p in Below(src, d) && p[..|d| + 1] == r ensures p == r || p in Below(src, r) {
      PrefixOrSame(r, p);
    }
  }

  lemma FileHasNothingBelow(src: Tree, r: Path)
    requires WellFormed(src) && r in src && src[r].FileEntry?
    ensures Below(src, r) == {}
  {
    forall p | p in src && r < p ensures false {
      AncestorsAreDirs(src, p, r);
    }
  }

  /** Disk destinations never refuse a file. */
  lemma DiskNeverFails(o: Opts, t0: Tree, v: Path, want: Node)
    ensures Verdict(o, Disk, t0, v, want) != Failed
  {}

  lemma ParentsInMore(done: set<Path>, r: Path)
    requires ParentsIn(done) && r != [] && (Parent(r) == [] || Parent(r) in done)
    ensures ParentsIn(done + {r})
  {}

  /** The variables that the recursive walk of decryptSync shares. */
  class Walker {
    const dst: Destination
    var seen: set<Path>
    var c: Counters

    constructor (dst: Destination)
      ensures this.dst == dst && seen == {} && c == Counters(0, 0, 0, 0, 0)
    {
      this.dst, seen, c := dst, {}, Counters(0, 0, 0, 0, 0);
    }

    /** The paths in done have been visited, and nothing else. */
    ghost predicate Reached(o: Opts, t0: Tree, src: Tree, done: set<Path>)
      reads this, dst
    {
      && done <= src.Keys && ParentsIn(done) && seen == done
      && dst.tree == Progress(o, t0, src, [], done) && c == CountOf(o, t0, src, [], done)
    }

    /** Handles one listed entry, without going into it. */
    method Entry(o: Opts, rel: Path, node: Node, ghost t0: Tree, ghost src: Tree, ghost done: set<Path>)
      requires dst.Valid() && dst.side.Disk? && WellFormed(t0) && WellFormed(src) && NoConflict(t0, src, [])
      requires Reached(o, t0, src, done)
      requires rel != [] && rel in src && src[rel] == node && rel !in done && (Parent(rel) == [] || Parent(rel) in done)
      modifies this, dst`tree
      ensures dst.Valid() && Reached(o, t0, src, done + {rel})
    {
      hide Partial, Progress, CountOf, WellFormed, NoConflict, Verdict, ParentsIn, Need, HasNameFile;
      ParentsInMore(done, rel);
      seen := seen + {rel};
      assert [] + rel == rel;
      DiskNeverFails(o, t0, rel, node);
      TallyCounts(o, Disk, t0, src, [], done, rel);
      var what := dst.Visit(o, [], rel, node, t0, src, done);
      c := Tally(c, what);
    }

    /** Visits everything below d, in whatever order the listings come. */
    method Walk(o: Opts, src: Tree, d: Path, ghost t0: Tree, ghost done: set<Path>)
      requires dst.Valid() && dst.side.Disk? && WellFormed(t0) && WellFormed(src) && NoConflict(t0, src, [])
      requires Reached(o, t0, src, done)
      requires IsDir(src, d) && (d == [] || d in done) && done !! Below(src, d)
      modifies this, dst`tree
      ensures dst.Valid() && Reached(o, t0, src, done + Below(src, d))
      decreases Below(src, d)
    {
      hide WellFormed, NoConflict, Walked, Below, Reached;
      var todo := Children(src, d);
      WalkedNone(src, d);
      assert done + {} == done;
      while todo != {}
        invariant dst.Valid() && todo <= Children(src, d)
        invariant Reached(o, t0, src, done + Walked(src, d, todo))
      {
        var rel :| rel in todo;
        WalkedStep(src, d, todo, rel);
        ghost var w := done + Walked(src, d, todo);
        Entry(o, rel, src[rel], t0, src, w);
        if src[rel].DirEntry? {
          BelowShrinks(src, src, d, rel);
          Walk(o, src, rel, t0, w + {rel});
        } else {
          FileHasNothingBelow(src, rel);
          assert w + {rel} + {} == w + {rel};
        }
        assert w + {rel} + Below(src, rel) == done + (Walked(src, d, todo) + {rel} + Below(src, rel));
        todo := todo - {rel};
      }
      WalkedAll(src, d);
    }
  }

  /** Restoring a directory of a volume to disk. It dies exactly when that directory is not there. */
  method DecryptSync(o: Opts, base: Path, vol: Tree, dst: Destination) returns (died: bool, c: Counters)
    requires dst.Valid() && dst.side.Disk? && WellFormed(dst.tree) && WellFormed(vol)
    requires NoConflict(dst.tree, SubTree(vol, base), [])
    modifies dst`tree
    ensures died <==> !IsDir(vol, base)
    ensures died ==> dst.tree == old(dst.tree)
    ensures !died ==>
      var src := SubTree(vol, base);
      dst.tree == Synced(o, old(dst.tree), src, []) && c == Count(o, old(dst.tree), src, [])
  {
    hide Partial, Synced, CountOf, Count, WellFormed, NoConflict, SubTree, At, ParentsIn;
    var src := SubTree(vol, base);
    SubTreeWellFormed(vol, base);
    c := Counters(0, 0, 0, 0, 0);
    if base != [] && !(base in vol && vol[base].DirEntry?) {
      return true, c;
    }
    ghost var t0 := dst.tree;
    ProgressNone(o, t0, src, []);
    StartOfWalk(o, t0, src, [], []);
    NoParents();
    var w := new Walker(dst);
    w.Walk(o, src, [], t0, {});
    BelowRoot(src);
    AtRoot(src.Keys);
    died := false;
    c := Finish(o, [], dst, w.seen, w.c, t0, src);
  }

  lemma NoParents()
    ensures ParentsIn({})
  {}

  lemma BelowRoot(src: Tree)
    requires WellFormed(src)
    ensures {} + Below(src, []) == src.Keys
  {}

  // ---------- there and back ----------

  /** Pushing a tree with -checksum -delete and restoring it the same way gives its names, kinds and contents. */
  lemma PushThenRestore(o1: Opts, o2: Opts, v0: Tree, src: Tree, base: Path, d0: Tree, p: Path)
    requires NoConflict(v0, src, base) && WellFormed(src) && o1.checksum && o1.delete && !o1.dryRun
    requires o2.checksum && o2.delete && !o2.dryRun
    requires NoConflict(d0, SubTree(Synced(o1, v0, src, base), base), []) && p != []
    ensures var restored := Synced(o2, d0, SubTree(Synced(o1, v0, src, base), base), []);
      && (p in restored <==> p in src)
      && (p in src ==>
            && restored[p].DirEntry? == src[p].DirEntry?
            && (src[p].FileEntry? ==> restored[p].content == src[p].content))
  {
    hide Synced, SubTree, NoConflict, WellFormed;
    var vol := Synced(o1, v0, src, base);
    assert (base + p)[|base|..] == p && p[0..] == p;
    SyncedIsSource(o1, v0, src, base, base + p);
    SubTreeAt(vol, base, p);
    SyncedIsSource(o2, d0, SubTree(vol, base), [], p);
  }
}
