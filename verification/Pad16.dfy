/** PKCS#7 padding to the AES block size (pad16.go; section 6.3 of RFC 5652). */
module Pad16 {
  import opened Bytes

  const BLOCK_SIZE: nat := 16

  function PadLen(n: nat): nat { BLOCK_SIZE - n % BLOCK_SIZE }

  function Padded(x: bytes): bytes { x + seq(PadLen(|x|), _ => PadLen(|x|) as byte) }

  /** Section 6.3 of RFC 5652 for blocks of 16: one to sixteen bytes up to the next block, each their number. */
  lemma PaddedBytes(x: bytes, y: bytes)
    ensures y == Padded(x) <==>
      && |x| < |y| <= |x| + 16 && |y| % 16 == 0 && y[..|x|] == x
      && forall i | |x| <= i < |y| :: y[i] as int == |y| - |x|
  {
    if |x| < |y| <= |x| + 16 && |y| % 16 == 0 && y[..|x|] == x
      && forall i | |x| <= i < |y| :: y[i] as int == |y| - |x|
    {
      PadLenOf(|x|, |y| - |x|);
      assert y == y[..|x|] + y[|x|..];
    }
  }

  method Pad(orig: bytes) returns (padded: array<byte>)
    requires orig != []
    ensures padded[..] == Padded(orig) && padded.Length % BLOCK_SIZE == 0
  {
    var oldLen := |orig|;
    var padLen := BLOCK_SIZE - oldLen % BLOCK_SIZE;
    if padLen == 0 {
      padLen := BLOCK_SIZE;
    }
    var newLen := oldLen + padLen;
    padded := new byte[newLen](i requires 0 <= i < newLen => if i < oldLen then orig[i] else 0);
    var padByte := padLen as byte;
    for i := oldLen to newLen
      invariant padded[..oldLen] == orig
      invariant forall j | oldLen <= j < i :: padded[j] == padByte
    {
      padded[i] := padByte;
    }
  }

  /** What removing the padding makes of b. */
  function Unpadded(b: bytes): Option<bytes> {
    if b == [] || |b| % BLOCK_SIZE != 0 then None
    else
      var padLen := b[|b| - 1] as nat;
      if padLen == 0 || padLen > BLOCK_SIZE || padLen >= |b| then None
      else if forall i | |b| - padLen <= i < |b| :: b[i] == b[|b| - 1] then Some(b[..|b| - padLen])
      else None
  }

  method UnPad(padded: bytes) returns (r: Option<bytes>)
    ensures r == Unpadded(padded)
  {
    var oldLen := |padded|;
    if oldLen == 0 || oldLen % BLOCK_SIZE != 0 {
      return None;
    }
    var padByte := padded[oldLen - 1];
    var padLen := padByte as nat;
    if padLen == 0 || padLen > BLOCK_SIZE || padLen >= oldLen {
      return None;
    }
    for i := oldLen - padLen to oldLen
      invariant forall j | oldLen - padLen <= j < i :: padded[j] == padByte
    {
      if padded[i] != padByte {
        return None;
      }
    }
    return Some(padded[..oldLen - padLen]);
  }

  /** Removing the padding succeeds with x on the padding of a non-empty x, and on nothing else. */
  lemma UnpadInvertsPad(b: bytes, x: bytes)
    ensures Unpadded(b) == Some(x) <==> x != [] && b == Padded(x)
  {
    if x != [] && b == Padded(x) {
      UnpadPadded(x);
    }
    if Unpadded(b) == Some(x) {
      var n := b[|b| - 1] as nat;
      PadLenOf(|x|, n);
      hide PadLen;
      assert b == b[..|b| - n] + b[|b| - n..];
      assert b[|b| - n..] == seq(n, _ => n as byte);
    }
  }

  lemma PadLenOf(m: nat, n: nat)
    requires (m + n) % BLOCK_SIZE == 0 && 0 < n <= BLOCK_SIZE
    ensures PadLen(m) == n
  {
  }

  lemma UnpadPadded(x: bytes)
    requires x != []
    ensures Unpadded(Padded(x)) == Some(x)
  {
    var b := Padded(x);
    assert b[|b| - 1] == PadLen(|x|) as byte;
    assert b[..|b| - PadLen(|x|)] == x;
  }
}
