/** The cache of open directories: twenty slots filled in turn (dircache.go). */
module DirCache {
  import opened Bytes

  const DIR_CACHE_SIZE: nat := 20

  /** A slot holds a path, the directory it was opened as, and the directory's IV. */
  datatype Slot = Free | Used(path: Path, dir: nat, iv: bytes)

  /** No path is in two slots. */
  predicate Distinct(slots: seq<Slot>) {
    forall i, j | 0 <= i < j < |slots| :: slots[i].Used? && slots[j].Used? ==> slots[i].path != slots[j].path
  }

  predicate Has(slots: seq<Slot>, path: Path) {
    exists i | 0 <= i < |slots| :: slots[i].Used? && slots[i].path == path
  }

  /** Slot i is the first to hold the path. */
  predicate First(slots: seq<Slot>, i: nat, path: Path) {
    && i < |slots| && slots[i].Used? && slots[i].path == path
    && forall j | 0 <= j < i :: !(slots[j].Used? && slots[j].path == path)
  }

  function Without(slots: seq<Slot>, path: Path): seq<Slot> {
    seq(|slots|, i requires 0 <= i < |slots| => if slots[i].Used? && slots[i].path == path then Free else slots[i])
  }

  class Cache {
    const entries: array<Slot>
    var nextIndex: nat

    constructor ()
      ensures Valid() && fresh(entries)
      ensures forall i | 0 <= i < DIR_CACHE_SIZE :: entries[i] == Free
    {
      entries, nextIndex := new Slot[DIR_CACHE_SIZE](_ => Free), 0;
    }

    ghost predicate Valid()
      reads this, entries
    {
      entries.Length == DIR_CACHE_SIZE && nextIndex < DIR_CACHE_SIZE
    }

    method Clear()
      requires Valid()
      modifies entries
      ensures Valid()
      ensures forall i | 0 <= i < DIR_CACHE_SIZE :: entries[i] == Free
    {
      for i := 0 to entries.Length
        invariant forall j | 0 <= j < i :: entries[j] == Free
      {
        entries[i] := Free;
      }
    }

    /** The slot whose turn it is is taken, whatever it held, and whether or not another slot holds the path. */
    method Store(path: Path, dir: nat, iv: bytes)
      requires Valid()
      modifies this`nextIndex, entries
      ensures Valid()
      ensures entries[..] == old(entries[..])[old(nextIndex) := Used(path, dir, iv)]
      ensures nextIndex == (old(nextIndex) + 1) % DIR_CACHE_SIZE
      ensures old(Distinct(entries[..])) && !Has(old(entries[..]), path) ==> Distinct(entries[..])
    {
      ghost var before := entries[..];
      entries[nextIndex] := Used(path, dir, iv);
      nextIndex := (nextIndex + 1) % DIR_CACHE_SIZE;
      assert !Has(before, path) ==> forall i | 0 <= i < |before| && before[i].Used? :: before[i].path != path;
    }

    method Lookup(path: Path) returns (found: Slot)
      requires Valid()
      ensures found.Used? <==> Has(entries[..], path)
      ensures found.Used? ==> found.path == path && found in entries[..]
    {
      found := Free;
      for i := 0 to entries.Length
        invariant forall j | 0 <= j < i :: !(entries[j].Used? && entries[j].path == path)
      {
        if entries[i].Used? && entries[i].path == path {
          return entries[i];
        }
      }
    }

    /** Only the first match is dropped; if no path is held twice, that is all of them. */
    method Delete(path: Path)
      requires Valid()
      modifies entries
      ensures Valid()
      ensures !Has(old(entries[..]), path) ==> entries[..] == old(entries[..])
      ensures Has(old(entries[..]), path) ==>
        exists i | 0 <= i < DIR_CACHE_SIZE ::
          First(old(entries[..]), i, path) && entries[..] == old(entries[..])[i := Free]
      ensures old(Distinct(entries[..])) ==>
        Distinct(entries[..]) && !Has(entries[..], path) && entries[..] == Without(old(entries[..]), path)
    {
      ghost var before := entries[..];
      for i := 0 to entries.Length
        invariant entries[..] == old(entries[..])
        invariant forall j | 0 <= j < i :: !(entries[j].Used? && entries[j].path == path)
      {
        if entries[i].Used? && entries[i].path == path {
          entries[i] := Free;
          assert First(before, i, path);
          break;
        }
      }
    }
  }

  // ---------- how long an entry stays ----------

  /** What is done to the cache. A path is stored when it was looked up in vain; the entries may expire at any time. */
  datatype Use = Lookup(path: Path) | Store(path: Path, dir: nat, iv: bytes) | Delete(path: Path) | Expire

  function SlotsAfter(slots: seq<Slot>, next: nat, u: Use): (r: seq<Slot>)
    requires |slots| == DIR_CACHE_SIZE && next < DIR_CACHE_SIZE
    ensures |r| == DIR_CACHE_SIZE
  {
    match u
    case Lookup(_) => slots
    case Store(path, dir, iv) => if Has(slots, path) then slots else slots[next := Used(path, dir, iv)]
    case Delete(path) => Without(slots, path)
    case Expire => seq(DIR_CACHE_SIZE, _ => Free)
  }

  predicate Stores(slots: seq<Slot>, u: Use) { u.Store? && !Has(slots, u.path) }

  function NextAfter(slots: seq<Slot>, next: nat, u: Use): (r: nat)
    ensures next < DIR_CACHE_SIZE ==> r < DIR_CACHE_SIZE
  {
    if Stores(slots, u) then (next + 1) % DIR_CACHE_SIZE else next
  }

  /** The slots after a run, and how many times one was filled. */
  function RunOf(slots: seq<Slot>, next: nat, uses: seq<Use>): (r: (seq<Slot>, nat))
    requires |slots| == DIR_CACHE_SIZE && next < DIR_CACHE_SIZE
    ensures |r.0| == DIR_CACHE_SIZE
    decreases |uses|
  {
    if uses == [] then (slots, 0)
    else
      var (after, fills) := RunOf(SlotsAfter(slots, next, uses[0]), NextAfter(slots, next, uses[0]), uses[1..]);
      (after, if Stores(slots, uses[0]) then fills + 1 else fills)
  }

  predicate LeavesAlone(uses: seq<Use>, path: Path) {
    forall u | u in uses :: u.Store? || u.Delete? ==> u.path != path
  }

  /** An entry stays until its turn comes or the cache expires, and is gone then: 20 fills take it, fewer do not. */
  lemma {:induction false} StoredSurvives(slots: seq<Slot>, at: nat, next: nat, uses: seq<Use>, turns: nat)
    requires |slots| == 20 && at < 20 && next < 20 && turns < 20 && (next + turns) % 20 == at
    requires slots[at].Used? && Distinct(slots) && LeavesAlone(uses, slots[at].path)
    ensures var (after, fills) := RunOf(slots, next, uses);
      if fills <= turns && Expire !in uses then after[at] == slots[at] else !Has(after, slots[at].path)
    decreases |uses|
  {
    hide SlotsAfter, NextAfter, Distinct, Stores, Has;
    if uses != [] {
      var slots', next' := SlotsAfter(slots, next, uses[0]), NextAfter(slots, next, uses[0]);
      OneUse(slots, at, next, uses[0], turns);
      if uses[0].Expire? || (Stores(slots, uses[0]) && turns == 0) {
        StaysAway(slots', next', uses[1..], slots[at].path);
      } else {
        StoredSurvives(slots', at, next', uses[1..], if Stores(slots, uses[0]) then turns - 1 else turns);
      }
    }
  }

  /** One use: an entry goes if the cache expires or its turn has come; filling another slot brings its turn closer. */
  lemma OneUse(slots: seq<Slot>, at: nat, next: nat, u: Use, turns: nat)
    requires |slots| == DIR_CACHE_SIZE && at < DIR_CACHE_SIZE && next < DIR_CACHE_SIZE
    requires turns < DIR_CACHE_SIZE && (next + turns) % DIR_CACHE_SIZE == at
    requires slots[at].Used? && Distinct(slots) && LeavesAlone([u], slots[at].path)
    ensures var slots', next' := SlotsAfter(slots, next, u), NextAfter(slots, next, u);
      && next' < DIR_CACHE_SIZE
      && if u.Expire? || (Stores(slots, u) && turns == 0) then !Has(slots', slots[at].path)
         else
           && slots'[at] == slots[at] && Distinct(slots')
           && (next' + if Stores(slots, u) then turns - 1 else turns) % DIR_CACHE_SIZE == at
  {
    assert u in [u];
  }

  /** What nobody stores does not come back. */
  lemma {:induction false} StaysAway(slots: seq<Slot>, next: nat, uses: seq<Use>, path: Path)
    requires |slots| == DIR_CACHE_SIZE && next < DIR_CACHE_SIZE && !Has(slots, path) && LeavesAlone(uses, path)
    ensures !Has(RunOf(slots, next, uses).0, path)
    decreases |uses|
  {
    if uses != [] {
      StaysAway(SlotsAfter(slots, next, uses[0]), NextAfter(slots, next, uses[0]), uses[1..], path);
    }
  }

  method Do(cache: Cache, u: Use)
    requires cache.Valid() && Distinct(cache.entries[..])
    modifies cache`nextIndex, cache.entries
    ensures cache.Valid() && Distinct(cache.entries[..])
    ensures cache.entries[..] == SlotsAfter(old(cache.entries[..]), old(cache.nextIndex), u)
    ensures cache.nextIndex == NextAfter(old(cache.entries[..]), old(cache.nextIndex), u)
  {
    match u {
      case Lookup(path) =>
        var _ := cache.Lookup(path);
      case Store(path, dir, iv) =>
        var found := cache.Lookup(path);
        if found.Free? {
          cache.Store(path, dir, iv);
        }
      case Delete(path) => cache.Delete(path);
      case Expire => cache.Clear();
    }
  }

  /** A path just stored is found again until 20 others were stored or the cache expires, and no longer. */
  method StoreAndLookUp(cache: Cache, path: Path, dir: nat, iv: bytes, uses: seq<Use>) returns (found: Slot, fills: nat)
    requires cache.Valid() && Distinct(cache.entries[..]) && !Has(cache.entries[..], path) && LeavesAlone(uses, path)
    modifies cache`nextIndex, cache.entries
    ensures cache.Valid() && Distinct(cache.entries[..])
    ensures found == if fills < 20 && Expire !in uses then Used(path, dir, iv) else Free
    ensures fills == RunOf(old(cache.entries[..])[old(cache.nextIndex) := Used(path, dir, iv)],
                           (old(cache.nextIndex) + 1) % DIR_CACHE_SIZE, uses).1
  {
    hide SlotsAfter, NextAfter, Distinct;
    ghost var at := cache.nextIndex;
    cache.Store(path, dir, iv);
    ghost var slots, next := cache.entries[..], cache.nextIndex;
    StoredSurvives(slots, at, next, uses, DIR_CACHE_SIZE - 1);
    fills := 0;
    for i := 0 to |uses|
      invariant cache.Valid() && Distinct(cache.entries[..])
      invariant RunOf(slots, next, uses)
          == var (after, more) := RunOf(cache.entries[..], cache.nextIndex, uses[i..]); (after, fills + more)
    {
      assert uses[i..][0] == uses[i] && uses[i..][1..] == uses[i + 1..];
      var before := cache.entries[..];
      if Stores(before, uses[i]) {
        fills := fills + 1;
      }
      Do(cache, uses[i]);
    }
    found := cache.Lookup(path);
    if found.Used? { OneSlot(cache.entries[..], at, found); }
  }

  lemma OneSlot(slots: seq<Slot>, at: nat, found: Slot)
    requires Distinct(slots) && at < |slots| && slots[at].Used? && found in slots && found.Used?
    requires found.path == slots[at].path
    ensures found == slots[at]
  {
  }
}
