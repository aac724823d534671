/**
 Encrypting a list of plaintext blocks, in one goroutine or in several
 (EncryptBlocks, doEncryptBlocks and encryptBlocksParallel in content.go).
 */
module BlockEncryption {
  import opened Bytes
  import opened Offsets
  import opened ContentEnc

  /** A fresh nonce of the configured length. Random nonces are taken to be non-zero. */
  method RandomNonce(be: ContentEnc) returns (nonce: bytes)
    ensures |nonce| == be.ivLen && nonce != Zeros(be.ivLen)
  {
    ghost var one := seq(be.ivLen, _ => 1);
    assert one[0] == 1;
    nonce :| |nonce| == be.ivLen && nonce != Zeros(be.ivLen);
  }

  method EncryptBlock(be: ContentEnc, plain: bytes, blockNo: nat, fileID: FileID) returns (cipher: bytes)
    ensures EncryptedAs(be, cipher, plain, blockNo, fileID)
  {
    var nonce := RandomNonce(be);
    BlockRoundTrip(be, plain, blockNo, fileID, nonce);
    cipher := DoEncryptBlock(be, plain, blockNo, fileID, nonce);
  }

  /** cipher is plain sealed under its block number and file ID, as long as it should be. */
  ghost predicate EncryptedAs(be: ContentEnc, cipher: bytes, plain: bytes, blockNo: nat, fileID: FileID) {
    && DecryptBlock(be, cipher, blockNo, fileID) == Some(plain)
    && |cipher| == (if plain == [] then 0 else |plain| + Overhead(be))
  }

  /** Slots lo..hi of out hold the blocks lo..hi of plain, slot i under number first + i. */
  ghost predicate SlotsDone(be: ContentEnc, plain: seq<bytes>, out: seq<bytes>, first: nat, fileID: FileID, lo: nat,
                            hi: nat)
    requires |plain| == |out| && hi <= |out|
  {
    forall i | lo <= i < hi :: EncryptedAs(be, out[i], plain[i], first + i, fileID)
  }

  method DoEncryptBlocks(be: ContentEnc, plain: seq<bytes>, out: array<bytes>, first: nat, fileID: FileID)
    requires out.Length == |plain|
    modifies out
    ensures SlotsDone(be, plain, out[..], first, fileID, 0, |plain|)
  {
    for i := 0 to |plain|
      invariant SlotsDone(be, plain, out[..], first, fileID, 0, i)
    {
      out[i] := EncryptBlock(be, plain[i], first + i, fileID);
    }
  }

  // ---------- the same work shared out ----------

  /** Worker w of ncpu owns the slots Low(w)..High(w); the last one picks up the left-over blocks. */
  function Low(n: nat, ncpu: nat, w: nat): nat
    requires 0 < ncpu
  {
    w * (n / ncpu)
  }

  function High(n: nat, ncpu: nat, w: nat): nat
    requires 0 < ncpu
  {
    if w == ncpu - 1 then n else (w + 1) * (n / ncpu)
  }

  function Owner(n: nat, ncpu: nat, i: nat): (w: nat)
    requires 0 < ncpu
    ensures w < ncpu
  {
    if n / ncpu == 0 then ncpu - 1 else Min(i / (n / ncpu), ncpu - 1)
  }

  /** Each slot has one owner: the ranges cover the list and do not overlap. */
  lemma OwnersPartition(n: nat, ncpu: nat, i: nat, w: nat)
    requires 0 < ncpu && i < n && w < ncpu
    ensures Low(n, ncpu, w) <= i < High(n, ncpu, w) <==> w == Owner(n, ncpu, i)
  {
    var g := n / ncpu;
    if g > 0 {
      var k := i / g;
      DivMod(i, g);
      MulStep(k, g);
      MulStep(w, g);
      if w < k {
        MulMono(w + 1, k, g);
      } else if k < w {
        MulMono(k + 1, w, g);
      }
    }
  }

  lemma RangesInside(n: nat, ncpu: nat, w: nat)
    requires 0 < ncpu && w < ncpu
    ensures Low(n, ncpu, w) <= High(n, ncpu, w) <= n
  {
    var g := n / ncpu;
    DivMod(n, ncpu);
    assert ncpu * g == g * ncpu;
    MulMono(w, ncpu, g);
    MulMono(w + 1, ncpu, g);
    MulMono(w, w + 1, g);
  }

  /**
   The workers run interleaved: every turn, any worker that is not finished encrypts its next
   slot. However the turns fall, each slot is written once and the result is what one
   goroutine would have promised.
   */
  method EncryptBlocksParallel(be: ContentEnc, plain: seq<bytes>, out: array<bytes>, first: nat, fileID: FileID,
                               ncpu: nat)
    returns (ghost writes: seq<nat>)
    requires out.Length == |plain| && 0 < ncpu
    modifies out
    ensures SlotsDone(be, plain, out[..], first, fileID, 0, |plain|)
    ensures |writes| == |plain| && forall i | 0 <= i < |plain| :: writes[i] == 1
  {
    hide EncryptedAs, Low, High, Owner;
    var n := |plain|;
    var next := seq(ncpu, w requires 0 <= w => Low(n, ncpu, w));
    writes := seq(n, _ => 0);
    ghost var todo := set i: nat | i < n && writes[i] == 0;
    forall w | 0 <= w < ncpu ensures Low(n, ncpu, w) <= High(n, ncpu, w) <= n { RangesInside(n, ncpu, w); }
    forall i | 0 <= i < n ensures Low(n, ncpu, Owner(n, ncpu, i)) <= i {
      OwnersPartition(n, ncpu, i, Owner(n, ncpu, i));
    }
    while exists w :: 0 <= w < ncpu && next[w] < High(n, ncpu, w)
      invariant |next| == ncpu && |writes| == n
      invariant forall w | 0 <= w < ncpu :: Low(n, ncpu, w) <= next[w] <= High(n, ncpu, w) <= n
      invariant forall i: nat :: i in todo <==> i < n && next[Owner(n, ncpu, i)] <= i
      invariant forall i | 0 <= i < n :: writes[i] == if i in todo then 0 else 1
      invariant forall i | 0 <= i < n :: i !in todo ==> EncryptedAs(be, out[i], plain[i], first + i, fileID)
      decreases todo
    {
      var w :| 0 <= w < ncpu && next[w] < High(n, ncpu, w);
      var i := next[w];
      OwnersPartition(n, ncpu, i, w);
      out[i] := EncryptBlock(be, plain[i], first + i, fileID);
      writes := writes[i := writes[i] + 1];
      next := next[w := i + 1];
      todo := todo - {i};
    }
    forall i | 0 <= i < n ensures i !in todo {
      OwnersPartition(n, ncpu, i, Owner(n, ncpu, i));
    }
  }

  // ---------- the ciphertext of a request ----------

  function Flatten(blocks: seq<bytes>): bytes {
    if blocks == [] then [] else blocks[0] + Flatten(blocks[1..])
  }

  lemma {:induction false} FlattenSnoc(blocks: seq<bytes>, b: bytes)
    ensures Flatten(blocks + [b]) == Flatten(blocks) + b
  {
    if blocks == [] {
      assert ([] + [b])[1..] == [];
      assert Flatten([b]) == b + Flatten([b][1..]);
    } else {
      assert (blocks + [b])[1..] == blocks[1..] + [b];
      FlattenSnoc(blocks[1..], b);
    }
  }

  /** Blocks as a write makes them: all full but the last, and none empty. */
  ghost predicate WriteShape(be: ContentEnc, plain: seq<bytes>) {
    forall i | 0 <= i < |plain| :: 0 < |plain[i]| <= be.plainBS && (i + 1 < |plain| ==> |plain[i]| == be.plainBS)
  }

  lemma {:induction false} FlattenDecrypts(be: ContentEnc, plain: seq<bytes>, cipher: seq<bytes>, first: nat,
                                           fileID: FileID)
    requires |plain| == |cipher| && WriteShape(be, plain)
    requires SlotsDone(be, plain, cipher, first, fileID, 0, |plain|)
    ensures PlainOf(be, Flatten(cipher), first, fileID) == Some(Flatten(plain))
    ensures |Flatten(cipher)| == |Flatten(plain)| + COff(be, |plain|) - POff(be, |plain|)
    decreases |plain|
  {
    hide DecryptBlock, COff, POff;
    OffAdd(be, 0, 0);
    if plain != [] {
      var c, rest := cipher[0], Flatten(cipher[1..]);
      assert EncryptedAs(be, c, plain[0], first + 0, fileID);
      forall i | 0 <= i < |plain| - 1
        ensures EncryptedAs(be, cipher[1..][i], plain[1..][i], first + 1 + i, fileID)
      {
        assert EncryptedAs(be, cipher[i + 1], plain[i + 1], first + (i + 1), fileID);
      }
      FlattenDecrypts(be, plain[1..], cipher[1..], first + 1, fileID);
      OffAdd(be, |plain| - 1, 1);
      OneBlock(be, c, first, fileID);
      if |plain| == 1 {
        assert c + rest == c && plain[0] + Flatten(plain[1..]) == plain[0];
      } else {
        PlainOfSplit(be, c, rest, first, fileID, 1);
      }
    }
  }

  method EncryptBlocks(be: ContentEnc, plain: seq<bytes>, first: nat, fileID: FileID, numCPU: nat)
    returns (cipher: bytes)
    requires WriteShape(be, plain)
    ensures PlainOf(be, cipher, first, fileID) == Some(Flatten(plain))
    ensures |cipher| == |Flatten(plain)| + COff(be, |plain|) - POff(be, |plain|)
  {
    hide PlainOf, SlotsDone;
    var blocks := new bytes[|plain|];
    if |plain| >= 32 && numCPU >= 2 {
      ghost var _ := EncryptBlocksParallel(be, plain, blocks, first, fileID, Min(numCPU, 2));
    } else {
      DoEncryptBlocks(be, plain, blocks, first, fileID);
    }
    var cs := blocks[..];
    FlattenDecrypts(be, plain, cs, first, fileID);
    cipher := [];
    for i := 0 to |plain|
      invariant cipher == Flatten(cs[..i])
    {
      assert cs[..i + 1] == cs[..i] + [cs[i]];
      FlattenSnoc(cs[..i], cs[i]);
      cipher := cipher + cs[i];
    }
    assert cs[..|plain|] == cs;
  }

  /** MergeBlocks: newData over oldData at offset, in one block of at most plainBS bytes. */
  function MergeBlocks(be: ContentEnc, oldData: bytes, newData: bytes, offset: nat): bytes
    requires |oldData| <= be.plainBS && offset + |newData| <= be.plainBS
  {
    if oldData == [] && offset == 0 then newData
    else
      var out := oldData + Zeros(be.plainBS - |oldData|);
      var out' := out[..offset] + newData + out[offset + |newData|..];
      out'[..Max(|oldData|, offset + |newData|)]
  }
}
