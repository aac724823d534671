/** Which directories lie below a directory: what a rename must not move a directory into. */
module DirTree {
  import opened DirImage

  /** The directories that entries of the directories in s lead to. */
  function Subdirs(dirs: Dirs, s: set<nat>): set<nat> {
    set x, c | x in s && x in dirs && c in dirs[x] && dirs[x][c].DirNode? :: dirs[x][c].id
  }

  /** s and everything below it. */
  function Reach(dirs: Dirs, s: set<nat>): (r: set<nat>)
    ensures s <= r && Subdirs(dirs, r) <= r
    decreases Subdirs(dirs, dirs.Keys) - s
  {
    var more := s + Subdirs(dirs, s);
    if more == s then s
    else
      assert Subdirs(dirs, s) <= Subdirs(dirs, dirs.Keys);
      var x :| x in Subdirs(dirs, s) && x !in s;
      assert x in Subdirs(dirs, dirs.Keys) - s;
      Reach(dirs, more)
  }

  /** Nothing is below s that some closed set around s leaves out. */
  lemma {:induction false} ReachIsLeast(dirs: Dirs, s: set<nat>, t: set<nat>)
    requires s <= t && Subdirs(dirs, t) <= t
    ensures Reach(dirs, s) <= t
    decreases Subdirs(dirs, dirs.Keys) - s
  {
    var more := s + Subdirs(dirs, s);
    assert Subdirs(dirs, s) <= Subdirs(dirs, t);
    if more != s {
      var x :| x in Subdirs(dirs, s) && x !in s;
      assert x in Subdirs(dirs, dirs.Keys) - s;
      ReachIsLeast(dirs, more, t);
    }
  }

  /** Fewer entries reach no further. */
  lemma ReachShrinks(a: Dirs, b: Dirs, s: set<nat>)
    requires forall t: set<nat> :: Subdirs(a, t) <= Subdirs(b, t)
    ensures Reach(a, s) <= Reach(b, s)
  {
    assert Subdirs(a, Reach(b, s)) <= Subdirs(b, Reach(b, s));
    ReachIsLeast(a, s, Reach(b, s));
  }
}
