/** The table of open files of a volume (registerFileHandle and gcf_close_file in file.go, gcf_close in volume.go). */
module Handles {
  import opened Bytes

  datatype File = File(fd: int, path: bytes)

  ghost function UpTo(n: nat): (s: set<nat>)
    ensures forall i: nat :: i in s <==> i < n
  {
    if n == 0 then {} else UpTo(n - 1) + {n - 1}
  }

  lemma {:induction false} UpToSize(n: nat)
    ensures |UpTo(n)| == n
  {
    if n != 0 {
      UpToSize(n - 1);
    }
  }

  lemma SubsetSize(a: set<nat>, b: set<nat>)
    requires a <= b
    ensures |a| <= |b| && (|a| == |b| ==> a == b)
  {
    assert b == a + (b - a);
  }

  /** Numbers in use up to n leave room only below the number of entries. */
  lemma FullPrefix(used: set<nat>, n: nat)
    requires forall i: nat | i < n :: i in used
    ensures n <= |used| && (n == |used| ==> used == UpTo(n))
  {
    UpToSize(n);
    assert UpTo(n) <= used;
    SubsetSize(UpTo(n), used);
  }

  class FileTable {
    var fileHandles: map<nat, File>

    constructor ()
      ensures fileHandles == map[]
    {
      fileHandles := map[];
    }

    /** The new file gets the least number that is free; no open file loses its number. */
    method RegisterFileHandle(fd: int, path: bytes) returns (c: nat)
      modifies this
      ensures c !in old(fileHandles) && (forall i: nat | i < c :: i in old(fileHandles))
      ensures fileHandles == old(fileHandles)[c := File(fd, path)]
      ensures c <= |old(fileHandles)|
    {
      c := 0;
      FullPrefix(fileHandles.Keys, 0);
      while c in fileHandles
        invariant fileHandles == old(fileHandles) && (forall i: nat | i < c :: i in fileHandles)
        invariant c <= |fileHandles.Keys|
        decreases |fileHandles.Keys| - c
      {
        FullPrefix(fileHandles.Keys, c + 1);
        c := c + 1;
      }
      fileHandles := fileHandles[c := File(fd, path)];
    }

    /** It crashes on a number that is not in use. */
    method CloseFile(handleID: nat) returns (crashed: bool)
      modifies this
      ensures crashed <==> handleID !in old(fileHandles)
      ensures fileHandles == old(fileHandles) - {handleID}
    {
      crashed := handleID !in fileHandles;
      fileHandles := fileHandles - {handleID};
    }

    /**
     gcf_close goes over the positions of the list of numbers instead of the numbers. It closes every file
     exactly when the numbers in use are 0, 1, 2 and so on without a gap, and crashes otherwise.
     */
    method Close() returns (crashed: bool)
      modifies this
      ensures crashed <==> old(fileHandles).Keys != UpTo(|old(fileHandles)|)
      ensures !crashed ==> fileHandles == map[]
    {
      ghost var h0 := fileHandles;
      var n := |fileHandles|;
      assert h0.Keys == h0.Keys - UpTo(0);
      for i := 0 to n
        invariant fileHandles == h0 - UpTo(i)
        invariant forall k: nat | k < i :: k in h0
      {
        crashed := CloseFile(i);
        if crashed {
          assert i in UpTo(n) && i !in h0;
          return;
        }
        assert UpTo(i + 1) == UpTo(i) + {i};
      }
      crashed := false;
      FullPrefix(h0.Keys, n);
    }
  }

  /** Opening keeps the numbers without a gap. */
  lemma OpeningKeepsGapless(h: map<nat, File>, c: nat, f: File)
    requires h.Keys == UpTo(|h|) && c !in h && (forall i: nat | i < c :: i in h)
    ensures c == |h| && h[c := f].Keys == UpTo(|h[c := f]|)
  {
    FullPrefix(h.Keys, c);
    var h' := h[c := f];
    assert h'.Keys == h.Keys + {c};
    assert UpTo(c + 1) == UpTo(c) + {c};
  }

  /** Closing keeps the numbers without a gap exactly when it closes the last one. */
  lemma ClosingKeepsGapless(h: map<nat, File>, c: nat)
    requires h.Keys == UpTo(|h|) && c in h
    ensures (h - {c}).Keys == UpTo(|h - {c}|) <==> c == |h| - 1
  {
    var h' := h - {c};
    assert h'.Keys == h.Keys - {c};
    assert |h'| == |h| - 1;
    if c == |h| - 1 {
      assert UpTo(|h|) - {c} == UpTo(|h| - 1);
    } else {
      assert |h| - 1 in h'.Keys && |h| - 1 !in UpTo(|h| - 1);
    }
  }
}
