/**
 The plain directories of a volume, seen as the tree of paths a sync works on; and what the operations by path
 make of it, when nothing fails.
 */
module VolumeTree {
  import opened Bytes
  import opened Names
  import opened DirImage
  import opened DirOps
  import opened PathResolution
  import opened ClientRuns
  import T = SyncTree

  /** The tree has the paths that lead somewhere, and its directories are those that open. */
  ghost predicate Shows(plain: Dirs, t: T.Tree) {
    && ROOT in plain && [] !in t
    && forall p: Path | p != [] ::
      && (p in t <==> Exists(plain, p))
      && (p in t ==> IsValidName(p[|p| - 1]) && (t[p].DirEntry? <==> IsDir(plain, p)))
      && (IsDir(plain, p) ==> PlainOpen(plain, p).Some?)
  }

  /** Contents and times are not for the directories to show. */
  lemma SameKinds(plain: Dirs, t: T.Tree, t': T.Tree)
    requires Shows(plain, t) && t'.Keys == t.Keys && forall p | p in t :: t'[p].DirEntry? == t[p].DirEntry?
    ensures Shows(plain, t')
  {
    hide Exists, IsDir, PlainOpen, IsValidName;
  }

  lemma NewVolume()
    ensures Shows(map[ROOT := map[]], map[]) && IsTree(map[ROOT := map[]], 1)
  {
  }

  lemma DirShown(plain: Dirs, t: T.Tree, p: Path)
    requires Shows(plain, t)
    ensures T.IsDir(t, p) <==> PlainOpen(plain, p).Some?
    ensures PlainOpen(plain, p).Some? ==> PlainOpen(plain, p).value in plain
  {
    hide IsValidName;
    if p != [] {
      OpenLast(plain, p);
      hide PlainOpen;
    }
  }

  /** Every directory has the same directories. */
  ghost predicate SameDirs(a: Dirs, b: Dirs) {
    && a.Keys == b.Keys
    && forall d, x | d in a :: (x in a[d] && a[d][x].DirNode?) || (x in b[d] && b[d][x].DirNode?) ==>
      x in a[d] && x in b[d] && a[d][x] == b[d][x]
  }

  lemma {:induction false} SameOpen(a: Dirs, b: Dirs, q: Path)
    requires SameDirs(a, b)
    ensures PlainOpen(a, q) == PlainOpen(b, q)
    decreases |q|
  {
    if q != [] {
      OpenLast(a, q);
      OpenLast(b, q);
      hide PlainOpen;
      SameOpen(a, b, q[..|q| - 1]);
    }
  }

  /** What Shows says of one path. */
  ghost predicate ShownAt(plain: Dirs, t: T.Tree, p: Path)
    requires p != []
  {
    && (p in t <==> Exists(plain, p))
    && (p in t ==> IsValidName(p[|p| - 1]) && (t[p].DirEntry? <==> IsDir(plain, p)))
    && (IsDir(plain, p) ==> PlainOpen(plain, p).Some?)
  }

  lemma ShowsAt(plain: Dirs, t: T.Tree, p: Path)
    requires Shows(plain, t) && p != []
    ensures ShownAt(plain, t, p)
  {
    hide Exists, IsDir, PlainOpen, IsValidName;
  }

  lemma ShowsAll(plain: Dirs, t: T.Tree)
    requires ROOT in plain && [] !in t && forall p: Path | p != [] :: ShownAt(plain, t, p)
    ensures Shows(plain, t)
  {
    hide Exists, IsDir, PlainOpen, IsValidName;
    forall p: Path | p != []
      ensures && (p in t <==> Exists(plain, p))
              && (p in t ==> IsValidName(p[|p| - 1]) && (t[p].DirEntry? <==> IsDir(plain, p)))
              && (IsDir(plain, p) ==> PlainOpen(plain, p).Some?)
    {
      assert ShownAt(plain, t, p);
    }
  }

  /** The entry a path stands for. */
  lemma EntryOf(plain: Dirs, p: Path)
    requires p != []
    ensures Exists(plain, p) <==>
      Above(plain, p).Some? && Above(plain, p).value in plain && p[|p| - 1] in plain[Above(plain, p).value]
    ensures IsDir(plain, p) <==> Exists(plain, p) && plain[Above(plain, p).value][p[|p| - 1]].DirNode?
  {
    hide PlainOpen;
  }

  /** A file at p comes, or changes ... */
  lemma FilePut(before: Dirs, id: nat, t: T.Tree, p: Path, d: nat, node: Node, entry: T.Node)
    requires IsTree(before, id) && Shows(before, t) && p != [] && Above(before, p) == Some(d) && d in before
    requires IsValidName(p[|p| - 1]) && node.FileNode? && entry.FileEntry?
    requires p[|p| - 1] in before[d] ==> before[d][p[|p| - 1]].FileNode?
    ensures Shows(before[d := before[d][p[|p| - 1] := node]], t[p := entry])
  {
    hide IsTree, IsValidName, PlainOpen, Above, Shows, ShownAt, Exists, IsDir;
    var after: Dirs, t': T.Tree := before[d := before[d][p[|p| - 1] := node]], t[p := entry];
    ShowsRoot(before, t);
    assert SameDirs(before, after);
    forall q: Path | q != [] ensures ShownAt(after, t', q) {
      ShowsAt(before, t, q);
      FileAtPath(before, id, p, d, after, q);
      Unchanged(before, t, after, t', p, q);
    }
    ShowsAll(after, t');
  }

  lemma ShowsRoot(plain: Dirs, t: T.Tree)
    requires Shows(plain, t)
    ensures ROOT in plain && [] !in t
  {
    hide Exists, IsDir, PlainOpen, IsValidName;
  }

  lemma Unchanged(before: Dirs, t: T.Tree, after: Dirs, t': T.Tree, p: Path, q: Path)
    requires q != [] && ShownAt(before, t, q) && PlainOpen(after, q) == PlainOpen(before, q)
    requires q != p ==> (Exists(after, q) <==> Exists(before, q)) && (IsDir(after, q) <==> IsDir(before, q))
    requires q != p ==> (q in t' <==> q in t) && (q in t ==> t'[q] == t[q])
    requires q == p ==> !IsDir(after, q) && (q in t' <==> Exists(after, q)) && (q in t' ==> t'[q].FileEntry?)
    requires q == p ==> IsValidName(q[|q| - 1])
    ensures ShownAt(after, t', q)
  {
    hide Exists, IsDir, PlainOpen, IsValidName;
  }

  /** What a change of the file at p means for the path q. */
  lemma FileAtPath(before: Dirs, id: nat, p: Path, d: nat, after: Dirs, q: Path)
    requires IsTree(before, id) && p != [] && q != [] && Above(before, p) == Some(d) && d in before && d in after
    requires SameDirs(before, after) && after == before[d := after[d]]
    requires var x := p[|p| - 1];
      && (x in after[d] ==> after[d][x].FileNode?) && after[d] - {x} == before[d] - {x}
    ensures PlainOpen(after, q) == PlainOpen(before, q)
    ensures q != p ==> (Exists(after, q) <==> Exists(before, q)) && (IsDir(after, q) <==> IsDir(before, q))
    ensures q == p ==> !IsDir(after, q) && (Exists(after, q) <==> p[|p| - 1] in after[d])
  {
    hide IsTree, PlainOpen, Exists, IsDir, SameDirs;
    SameOpen(before, after, q);
    SameOpen(before, after, q[..|q| - 1]);
    SameEntry(before, id, p, q);
    EntryOf(before, q);
    EntryOf(after, q);
    if q != p && Above(before, q) == Some(d) {
      var x, y := q[|q| - 1], p[|p| - 1];
      assert x in after[d] - {y} <==> x in before[d] - {y};
      assert x in after[d] ==> (after[d] - {y})[x] == after[d][x];
      assert x in before[d] ==> (before[d] - {y})[x] == before[d][x];
    }
  }

  /** ... or goes. */
  lemma FileDrop(before: Dirs, id: nat, t: T.Tree, p: Path, d: nat)
    requires IsTree(before, id) && Shows(before, t) && p != [] && Above(before, p) == Some(d) && d in before
    requires p[|p| - 1] in before[d] && before[d][p[|p| - 1]].FileNode?
    ensures Shows(before[d := before[d] - {p[|p| - 1]}], t - {p})
  {
    hide IsTree, IsValidName, PlainOpen, Above, Shows, ShownAt, Exists, IsDir;
    var after: Dirs, t': T.Tree := before[d := before[d] - {p[|p| - 1]}], t - {p};
    ShowsRoot(before, t);
    assert SameDirs(before, after);
    ValidShown(before, t, p, d);
    forall q: Path | q != [] ensures ShownAt(after, t', q) {
      ShowsAt(before, t, q);
      FileAtPath(before, id, p, d, after, q);
      Unchanged(before, t, after, t', p, q);
    }
    ShowsAll(after, t');
  }

  lemma ValidShown(plain: Dirs, t: T.Tree, p: Path, d: nat)
    requires Shows(plain, t) && p != [] && Above(plain, p) == Some(d) && d in plain && p[|p| - 1] in plain[d]
    ensures p in t && IsValidName(p[|p| - 1]) && (t[p].DirEntry? <==> plain[d][p[|p| - 1]].DirNode?)
  {
    hide PlainOpen, IsValidName;
    EntryOf(plain, p);
  }

  // ---------- directories ----------

  /** Where paths lead once there is a new directory at p. */
  lemma {:induction false} NewDirOpens(before: Dirs, id: nat, t: T.Tree, p: Path, d: nat, child: nat, q: Path)
    requires IsTree(before, id) && Shows(before, t) && p != [] && Above(before, p) == Some(d) && d in before
    requires p[|p| - 1] !in before[d] && child !in before
    ensures PlainOpen(WithDir(before, d, p[|p| - 1], child), q) == if q == p then Some(child) else PlainOpen(before, q)
    decreases |q|
  {
    hide IsTree, Shows, IsValidName, PlainOpen, Above;
    var after := WithDir(before, d, p[|p| - 1], child);
    ShowsRoot(before, t);
    if q == [] {
      OpenRoot(before);
      OpenRoot(after);
    } else {
      NewDirOpens(before, id, t, p, d, child, q[..|q| - 1]);
      OpenLast(before, q);
      OpenLast(after, q);
      OpenLast(before, p);
      ShowsAt(before, t, q);
      EntryOf(before, q);
      SameEntry(before, id, p, q);
      DirShown(before, t, q[..|q| - 1]);
      assert Above(before, p) == PlainOpen(before, p[..|p| - 1]);
      assert q[..|q| - 1] == p ==> PlainOpen(before, p) == None;
    }
  }

  lemma OpenRoot(plain: Dirs)
    ensures PlainOpen(plain, []) == if ROOT in plain then Some(ROOT) else None
  {
  }

  lemma DirPut(before: Dirs, id: nat, t: T.Tree, p: Path, d: nat, child: nat)
    requires IsTree(before, id) && Shows(before, t) && p != [] && Above(before, p) == Some(d) && d in before
    requires p[|p| - 1] !in before[d] && child !in before && IsValidName(p[|p| - 1])
    ensures Shows(WithDir(before, d, p[|p| - 1], child), t[p := T.DirEntry])
  {
    hide IsTree, IsValidName, PlainOpen, Above, Shows, ShownAt, Exists, IsDir;
    var after, t': T.Tree := WithDir(before, d, p[|p| - 1], child), t[p := T.DirEntry];
    ShowsRoot(before, t);
    forall q: Path | q != [] ensures ShownAt(after, t', q) {
      DirPutAt(before, id, t, p, d, child, q);
    }
    ShowsAll(after, t');
  }

  lemma DirPutAt(before: Dirs, id: nat, t: T.Tree, p: Path, d: nat, child: nat, q: Path)
    requires IsTree(before, id) && Shows(before, t) && p != [] && Above(before, p) == Some(d) && d in before
    requires p[|p| - 1] !in before[d] && child !in before && IsValidName(p[|p| - 1]) && q != []
    ensures ShownAt(WithDir(before, d, p[|p| - 1], child), t[p := T.DirEntry], q)
  {
    hide IsTree, IsValidName, PlainOpen, Above, Shows, Exists, IsDir;
    var after := WithDir(before, d, p[|p| - 1], child);
    NewDirOpens(before, id, t, p, d, child, q);
    NewDirOpens(before, id, t, p, d, child, q[..|q| - 1]);
    ShowsAt(before, t, q);
    SameEntry(before, id, p, q);
    EntryOf(before, q);
    EntryOf(after, q);
    OpenLast(before, q);
    OpenLast(after, q);
    OpenLast(before, p);
    DirShown(before, t, q[..|q| - 1]);
  }

  /** Fewer directories open fewer paths. */
  lemma {:induction false} FewerOpen(a: Dirs, b: Dirs, q: Path)
    requires b.Keys <= a.Keys && forall d, x | d in b && x in b[d] :: x in a[d] && a[d][x] == b[d][x]
    ensures PlainOpen(b, q).Some? ==> PlainOpen(a, q) == PlainOpen(b, q)
    decreases |q|
  {
    if q != [] {
      FewerOpen(a, b, q[..|q| - 1]);
      OpenLast(a, q);
      OpenLast(b, q);
    }
  }

  /** Where paths lead once the empty directory at p is gone. */
  lemma GoneDirOpens(before: Dirs, id: nat, p: Path, d: nat, q: Path)
    requires IsTree(before, id) && p != [] && Above(before, p) == Some(d) && d in before
    requires IsEmptyDir(before, d, p[|p| - 1])
    ensures PlainOpen(WithoutDir(before, d, p[|p| - 1]), q) == if q == p then None else PlainOpen(before, q)
  {
    hide IsTree, PlainOpen;
    var up, x := p[..|p| - 1], p[|p| - 1];
    var after := WithoutDir(before, d, x);
    assert p == up + [x];
    FewerOpen(before, after, q);
    if q != p {
      if PlainOpen(before, q).Some? { RemovalKeepsOpen(before, id, up, x, q); }
    } else {
      RemovalKeepsOpen(before, id, up, x, up);
      OpenLast(after, p);
    }
  }

  lemma DirDrop(before: Dirs, id: nat, t: T.Tree, p: Path, d: nat)
    requires IsTree(before, id) && Shows(before, t) && p != [] && Above(before, p) == Some(d) && d in before
    requires IsEmptyDir(before, d, p[|p| - 1])
    ensures Shows(WithoutDir(before, d, p[|p| - 1]), t - {p})
  {
    hide IsTree, IsValidName, PlainOpen, Above, Shows, ShownAt, Exists, IsDir;
    var after, t': T.Tree := WithoutDir(before, d, p[|p| - 1]), t - {p};
    ShowsRoot(before, t);
    GoneDirOpens(before, id, p, d, []);
    OpenRoot(before);
    OpenRoot(after);
    forall q: Path | q != [] ensures ShownAt(after, t', q) {
      DirDropAt(before, id, t, p, d, q);
    }
    ShowsAll(after, t');
  }

  lemma DirDropAt(before: Dirs, id: nat, t: T.Tree, p: Path, d: nat, q: Path)
    requires IsTree(before, id) && Shows(before, t) && p != [] && Above(before, p) == Some(d) && d in before
    requires IsEmptyDir(before, d, p[|p| - 1]) && q != []
    ensures ShownAt(WithoutDir(before, d, p[|p| - 1]), t - {p}, q)
  {
    hide IsTree, IsValidName, PlainOpen, Above, Shows, Exists, IsDir;
    var after := WithoutDir(before, d, p[|p| - 1]);
    GoneDirOpens(before, id, p, d, q);
    GoneDirOpens(before, id, p, d, q[..|q| - 1]);
    ShowsAt(before, t, q);
    SameEntry(before, id, p, q);
    EntryOf(before, q);
    EntryOf(after, q);
    OpenLast(before, q);
    OpenLast(after, q);
    OpenLast(before, p);
    assert PlainOpen(before, p) == Some(before[d][p[|p| - 1]].id);
    if PlainOpen(before, q[..|q| - 1]) == PlainOpen(before, p) {
      PlainOpenInjective(before, id, q[..|q| - 1], p);
    }
  }

  // ---------- the operations by path, without failures ----------

  lemma AboveShown(plain: Dirs, t: T.Tree, p: Path)
    requires Shows(plain, t) && p != []
    ensures Above(plain, p).Some? <==> T.IsDir(t, T.Parent(p))
    ensures Above(plain, p).Some? ==> Above(plain, p).value in plain
  {
    hide Shows;
    DirShown(plain, t, T.Parent(p));
  }

  /** The directory or file at p, seen from the tree. */
  lemma EntryShown(plain: Dirs, t: T.Tree, p: Path)
    requires Shows(plain, t) && p != [] && Above(plain, p).Some? && Above(plain, p).value in plain
    ensures p in t <==> p[|p| - 1] in plain[Above(plain, p).value]
    ensures p in t ==>
      IsValidName(p[|p| - 1]) && (t[p].DirEntry? <==> plain[Above(plain, p).value][p[|p| - 1]].DirNode?)
  {
    hide PlainOpen, IsValidName;
    EntryOf(plain, p);
  }

  lemma LookupShown(n: NameTransform, before: Dirs, t: T.Tree, p: Path, ok: bool, after: Dirs)
    requires Shows(before, t) && p != [] && PathStep(n, false, before, Lookup(p), ok, after)
    ensures after == before && (ok <==> p in t)
  {
    hide IsValidName, PlainOpen, IsDir, Above;
    ShowsAt(before, t, p);
  }

  lemma MakeDirShown(n: NameTransform, before: Dirs, id: nat, t: T.Tree, p: Path, iv: bytes, ok: bool, after: Dirs)
    requires IsTree(before, id) && Shows(before, t) && |iv| == 16 && iv != Zeros(16)
    requires PathStep(n, false, before, MakeDir(p, iv), ok, after)
    ensures ok <==> p != [] && T.IsDir(t, T.Parent(p)) && p !in t && IsValidName(p[|p| - 1])
    ensures Shows(after, if ok then t[p := T.DirEntry] else t)
  {
    hide IsTree, Shows, IsValidName, PlainOpen, Above, WithDir, T.IsDir;
    if p != [] {
      AboveShown(before, t, p);
      if Above(before, p).Some? {
        EntryShown(before, t, p);
        if ok {
          var child :| child !in before && after == WithDir(before, Above(before, p).value, p[|p| - 1], child);
          DirPut(before, id, t, p, Above(before, p).value, child);
        }
      }
    }
  }

  lemma CreateShown(n: NameTransform, before: Dirs, id: nat, t: T.Tree, p: Path, ok: bool, after: Dirs)
    requires IsTree(before, id) && Shows(before, t) && PathStep(n, false, before, Create(p), ok, after)
    ensures ok <==> && p != [] && T.IsDir(t, T.Parent(p))
                    && if p in t then t[p].FileEntry? && !IsHashed(n, p[|p| - 1]) else IsValidName(p[|p| - 1])
    ensures Shows(after, if ok && p !in t then t[p := T.FileEntry([], 0)] else t)
  {
    hide IsTree, Shows, IsValidName, PlainOpen, Above, IsHashed, T.IsDir;
    ShowsRoot(before, t);
    if p != [] {
      AboveShown(before, t, p);
      if Above(before, p).Some? {
        EntryShown(before, t, p);
        if ok && p !in t {
          FilePut(before, id, t, p, Above(before, p).value, FileNode([]), T.FileEntry([], 0));
        }
      }
    }
  }

  lemma RemoveShown(n: NameTransform, before: Dirs, id: nat, t: T.Tree, p: Path, ok: bool, after: Dirs)
    requires IsTree(before, id) && Shows(before, t) && PathStep(n, false, before, Remove(p), ok, after)
    ensures ok <==> p in t && t[p].FileEntry?
    ensures Shows(after, if ok then t - {p} else t)
  {
    hide IsTree, Shows, IsValidName, PlainOpen, Above, T.IsDir;
    ShowsRoot(before, t);
    if p != [] {
      AboveShown(before, t, p);
      if p in t { ParentIsDir(before, t, p); }
      if Above(before, p).Some? {
        EntryShown(before, t, p);
        if ok { FileDrop(before, id, t, p, Above(before, p).value); }
      }
    }
  }

  lemma FileHasNone(plain: Dirs, t: T.Tree, p: Path)
    requires Shows(plain, t) && p in t && t[p].FileEntry?
    ensures forall q | q in t && q != [] :: T.Parent(q) != p
  {
    hide Shows;
    ShowsRoot(plain, t);
    forall q | q in t && q != [] ensures T.Parent(q) != p {
      ParentIsDir(plain, t, q);
    }
  }

  lemma ParentIsDir(plain: Dirs, t: T.Tree, p: Path)
    requires Shows(plain, t) && p in t
    ensures p != [] && T.IsDir(t, T.Parent(p))
  {
    hide PlainOpen, IsValidName, Above;
    AboveShown(plain, t, p);
    EntryOf(plain, p);
  }

  /** The tree a volume shows has a directory above every path. */
  lemma ShownIsWellFormed(plain: Dirs, t: T.Tree)
    requires Shows(plain, t)
    ensures T.WellFormed(t)
  {
    hide Shows, T.IsDir;
    ShowsRoot(plain, t);
    forall p | p in t ensures p != [] && T.IsDir(t, T.Parent(p)) {
      ParentIsDir(plain, t, p);
    }
  }

  lemma RemoveDirShown(n: NameTransform, before: Dirs, id: nat, t: T.Tree, p: Path, rnd: bytes, ok: bool, after: Dirs)
    requires IsTree(before, id) && Shows(before, t) && PathStep(n, false, before, RemoveDir(p, rnd), ok, after)
    ensures ok <==> p in t && t[p].DirEntry? && forall q | q in t && q != [] :: T.Parent(q) != p
    ensures Shows(after, if ok then t - {p} else t)
  {
    hide IsTree, Shows, IsValidName, PlainOpen, Above, WithoutDir, T.IsDir;
    ShowsRoot(before, t);
    if p != [] {
      AboveShown(before, t, p);
      if p in t { ParentIsDir(before, t, p); }
      if Above(before, p).Some? {
        EntryShown(before, t, p);
        EmptyShown(before, t, p);
        if ok { DirDrop(before, id, t, p, Above(before, p).value); }
      }
    }
  }

  /** A directory is empty if the tree has nothing below it. */
  lemma EmptyShown(plain: Dirs, t: T.Tree, p: Path)
    requires Shows(plain, t) && p != [] && Above(plain, p).Some? && Above(plain, p).value in plain
    ensures IsEmptyDir(plain, Above(plain, p).value, p[|p| - 1]) <==>
      p in t && t[p].DirEntry? && forall q | q in t && q != [] :: T.Parent(q) != p
  {
    hide PlainOpen, IsValidName, Above;
    EntryOf(plain, p);
    OpenLast(plain, p);
    if p in t && t[p].DirEntry? {
      var child := PlainOpen(plain, p).value;
      forall x | x in plain[child] ensures p + [x] in t && T.Parent(p + [x]) == p {
        assert (p + [x])[..|p|] == p;
        OpenLast(plain, p + [x]);
        EntryOf(plain, p + [x]);
      }
      forall q | q in t && q != [] && T.Parent(q) == p ensures plain[child] != map[] {
        OpenLast(plain, q);
        EntryOf(plain, q);
      }
      if plain[child] != map[] {
        var x :| x in plain[child];
        assert T.Parent(p + [x]) == p;
      }
    }
  }
}
