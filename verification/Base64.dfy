/**
 Strict base64url, with and without trailing padding (sections 3.5 and 5 of RFC 4648), as
 names.go uses it to turn an encrypted name into file name characters.
 */
module Base64 {
  import opened Bytes

  const PAD: byte := 61  // '='

  function Enc6(v: nat): byte
    requires v < 64
  {
    if v < 26 then (65 + v) as byte
    else if v < 52 then (97 + v - 26) as byte
    else if v < 62 then (48 + v - 52) as byte
    else if v == 62 then 45 else 95
  }

  function Dec6(c: byte): (r: Option<nat>)
    ensures r.Some? ==> r.value < 64
  {
    if 65 <= c <= 90 then Some(c as nat - 65)
    else if 97 <= c <= 122 then Some(c as nat - 97 + 26)
    else if 48 <= c <= 57 then Some(c as nat - 48 + 52)
    else if c == 45 then Some(62)
    else if c == 95 then Some(63)
    else None
  }

  lemma Dec6InvertsEnc6(c: byte, v: nat)
    requires v < 64
    ensures Dec6(c) == Some(v) <==> c == Enc6(v)
    ensures Enc6(v) != PAD && InAlphabet(Enc6(v))
  {
  }

  /** The padding after a final group of k characters. */
  function Tail(raw: bool, k: nat): bytes { if raw then [] else seq(if k <= 4 then 4 - k else 0, _ => PAD) }

  /** The characters of a final group of one or two bytes. */
  function Group(b: bytes): bytes
    requires |b| == 1 || |b| == 2
  {
    var x := b[0] as nat;
    if |b| == 1 then [Enc6(x / 4), Enc6(x % 4 * 16)]
    else
      var y := b[1] as nat;
      [Enc6(x / 4), Enc6(x % 4 * 16 + y / 16), Enc6(y % 16 * 4)]
  }

  function Encode(raw: bool, b: bytes): bytes {
    if b == [] then []
    else if |b| <= 2 then Group(b) + Tail(raw, |b| + 1)
    else Quad(b[0], b[1], b[2]) + Encode(raw, b[3..])
  }

  function Quad(a: byte, b: byte, c: byte): bytes {
    var x, y, z := a as nat, b as nat, c as nat;
    [Enc6(x / 4), Enc6(x % 4 * 16 + y / 16), Enc6(y % 16 * 4 + z / 64), Enc6(z % 64)]
  }

  /** The three bytes of four characters. */
  function UnQuad(s: bytes): Option<bytes>
    requires |s| == 4
  {
    var d0, d1, d2, d3 := Dec6(s[0]), Dec6(s[1]), Dec6(s[2]), Dec6(s[3]);
    if d0.None? || d1.None? || d2.None? || d3.None? then None
    else Some([(d0.value * 4 + d1.value / 16) as byte,
               (d1.value % 16 * 16 + d2.value / 4) as byte,
               (d2.value % 4 * 64 + d3.value) as byte])
  }

  /** A final group of two or three characters; its unused low bits must be zero. */
  function UnShort(s: bytes): Option<bytes>
    requires |s| == 2 || |s| == 3
  {
    var d0, d1 := Dec6(s[0]), Dec6(s[1]);
    if d0.None? || d1.None? then None
    else if |s| == 2 then
      if d1.value % 16 != 0 then None else Some([(d0.value * 4 + d1.value / 16) as byte])
    else
      var d2 := Dec6(s[2]);
      if d2.None? || d2.value % 4 != 0 then None
      else Some([(d0.value * 4 + d1.value / 16) as byte, (d1.value % 16 * 16 + d2.value / 4) as byte])
  }

  function Decode(raw: bool, s: bytes): Option<bytes> {
    if s == [] then Some([])
    else if raw && 2 <= |s| <= 3 then UnShort(s)
    else if !raw && |s| == 4 && s[3] == PAD then UnShort(if s[2] == PAD then s[..2] else s[..3])
    else if |s| < 4 then None
    else
      var head, rest := UnQuad(s[..4]), Decode(raw, s[4..]);
      if head.None? || rest.None? then None else Some(head.value + rest.value)
  }

  lemma QuadInverse(s: bytes, a: byte, b: byte, c: byte)
    requires |s| == 4
    ensures UnQuad(s) == Some([a, b, c]) <==> s == Quad(a, b, c)
  {
    var x, y, z := a as nat, b as nat, c as nat;
    Dec6InvertsEnc6(s[0], x / 4);
    Dec6InvertsEnc6(s[1], x % 4 * 16 + y / 16);
    Dec6InvertsEnc6(s[2], y % 16 * 4 + z / 64);
    Dec6InvertsEnc6(s[3], z % 64);
    if UnQuad(s) == Some([a, b, c]) {
      assert Dec6(s[0]).value == x / 4;
      assert Dec6(s[1]).value == x % 4 * 16 + y / 16;
      assert Dec6(s[2]).value == y % 16 * 4 + z / 64;
      assert Dec6(s[3]).value == z % 64;
    }
  }

  lemma OneByte(x: nat, d0: nat, d1: nat)
    requires x < 256 && d0 < 64 && d1 < 64
    ensures d1 % 16 == 0 && d0 * 4 + d1 / 16 == x <==> d0 == x / 4 && d1 == x % 4 * 16
  {
  }

  lemma By4(h: nat, l: nat, v: nat)
    requires l < 4
    ensures h * 4 + l == v <==> h == v / 4 && l == v % 4
  {
  }

  lemma By16(h: nat, l: nat, v: nat)
    requires l < 16
    ensures h * 16 + l == v <==> h == v / 16 && l == v % 16
  {
  }

  lemma TwoBytes(x: nat, y: nat, d0: nat, d1: nat, d2: nat)
    requires x < 256 && y < 256 && d0 < 64 && d1 < 64 && d2 < 64
    ensures d2 % 4 == 0 && d0 * 4 + d1 / 16 == x && d1 % 16 * 16 + d2 / 4 == y
       <==> d0 == x / 4 && d1 == x % 4 * 16 + y / 16 && d2 == y % 16 * 4
  {
    By4(d0, d1 / 16, x);
    By16(d1 % 16, d2 / 4, y);
    By16(x % 4, y / 16, d1);
    By4(y % 16, 0, d2);
  }

  lemma ShortInverse1(s: bytes, x: byte)
    requires |s| == 2
    ensures UnShort(s) == Some([x]) <==> s == Encode(true, [x])
  {
    hide Enc6, Dec6;
    Dec6InvertsEnc6(s[0], x as nat / 4);
    Dec6InvertsEnc6(s[1], x as nat % 4 * 16);
    if Dec6(s[0]).Some? && Dec6(s[1]).Some? {
      OneByte(x as nat, Dec6(s[0]).value, Dec6(s[1]).value);
    }
  }

  lemma ShortInverse2(s: bytes, x: byte, y: byte)
    requires |s| == 3
    ensures UnShort(s) == Some([x, y]) <==> s == Encode(true, [x, y])
  {
    hide Enc6, Dec6;
    Dec6InvertsEnc6(s[0], x as nat / 4);
    Dec6InvertsEnc6(s[1], x as nat % 4 * 16 + y as nat / 16);
    Dec6InvertsEnc6(s[2], y as nat % 16 * 4);
    if Dec6(s[0]).Some? && Dec6(s[1]).Some? && Dec6(s[2]).Some? {
      TwoBytes(x as nat, y as nat, Dec6(s[0]).value, Dec6(s[1]).value, Dec6(s[2]).value);
    }
  }

  lemma ShortInverse(s: bytes, b: bytes)
    requires |s| == 2 || |s| == 3
    ensures UnShort(s) == Some(b) <==> |b| + 1 == |s| && s == Encode(true, b)
  {
    hide Enc6, Dec6;
    if |b| == 1 {
      assert b == [b[0]];
      if |s| == 2 { ShortInverse1(s, b[0]); }
    } else if |b| == 2 {
      assert b == [b[0], b[1]];
      if |s| == 3 { ShortInverse2(s, b[0], b[1]); }
    }
  }

  /** With padding, a final group is the unpadded one followed by its padding. */
  lemma PaddedGroup(s: bytes, b: bytes)
    requires |s| == 4 && 0 < |b| <= 2
    ensures s == Encode(false, b) <==> s[..|b| + 1] == Encode(true, b) && s[|b| + 1..] == Tail(false, |b| + 1)
  {
    hide Enc6, Tail;
    EncodeLength(true, b);
    assert |Tail(false, |b| + 1)| == 3 - |b| by { TailLength(|b| + 1); }
    PaddedIsRaw(b);
    SplitEqual(s, Encode(true, b), Tail(false, |b| + 1));
  }

  lemma TailLength(k: nat)
    requires k <= 4
    ensures |Tail(false, k)| == 4 - k
  {
  }

  lemma PaddedIsRaw(b: bytes)
    requires 0 < |b| <= 2
    ensures Encode(false, b) == Encode(true, b) + Tail(false, |b| + 1)
  {
    hide Group, Tail;
    RawTail(|b| + 1);
    assert Group(b) + [] == Group(b);
  }

  lemma RawTail(k: nat)
    ensures Tail(true, k) == []
  {
  }

  lemma SplitEqual(s: bytes, e: bytes, t: bytes)
    requires |s| == |e| + |t|
    ensures s == e + t <==> s[..|e|] == e && s[|e|..] == t
  {
    assert s == s[..|e|] + s[|e|..];
  }

  /** Strict decoding accepts exactly the encoder's output, so the encoding is one to one. */
  lemma {:induction false} DecodeInvertsEncode(raw: bool, s: bytes, b: bytes)
    ensures Decode(raw, s) == Some(b) <==> s == Encode(raw, b)
    decreases |s|
  {
    hide Enc6, Dec6, UnShort, UnQuad, Quad;
    EncodeLength(raw, b);
    EncodeLength(true, b);
    if s == [] {
    } else if raw && 2 <= |s| <= 3 {
      ShortInverse(s, b);
    } else if !raw && |s| == 4 && s[3] == PAD {
      DecodeLastGroup(s, b);
    } else if |s| >= 4 {
      if 0 < |b| <= 2 && !raw && |s| == 4 {
        PaddedGroup(s, b);
      }
      var head, rest := UnQuad(s[..4]), Decode(raw, s[4..]);
      if head.Some? {
        UnQuadLength(s[..4]);
        if rest.Some? && head.value + rest.value == b {
          assert head.value == b[..3] && rest.value == b[3..];
        }
      }
      if |b| >= 3 {
        assert b[..3] == [b[0], b[1], b[2]];
        QuadInverse(s[..4], b[0], b[1], b[2]);
        DecodeInvertsEncode(raw, s[4..], b[3..]);
        assert s == s[..4] + s[4..];
        assert b == [b[0], b[1], b[2]] + b[3..];
        QuadLength(b[0], b[1], b[2]);
        if s == Encode(raw, b) {
          assert s[..4] == Quad(b[0], b[1], b[2]) && s[4..] == Encode(raw, b[3..]);
        }
      }
    }
  }

  lemma QuadLength(a: byte, b: byte, c: byte)
    ensures |Quad(a, b, c)| == 4 && Quad(a, b, c)[3] != PAD
  {
    Dec6InvertsEnc6(0, c as nat % 64);
  }

  lemma GroupLength(b: bytes)
    requires 0 < |b| <= 2
    ensures |Group(b)| == |b| + 1
  {
  }

  lemma UnQuadLength(s: bytes)
    requires |s| == 4 && UnQuad(s).Some?
    ensures |UnQuad(s).value| == 3
  {
  }

  /** Four characters that end in padding. */
  lemma DecodeLastGroup(s: bytes, b: bytes)
    requires |s| == 4 && s[3] == PAD
    ensures Decode(false, s) == Some(b) <==> s == Encode(false, b)
  {
    hide Enc6, Dec6, UnShort;
    EncodeLength(false, b);
    EncodeLength(true, b);
    if |b| == 3 {
      QuadLength(b[0], b[1], b[2]);
    }
    if 0 < |b| <= 2 {
      PaddedGroup(s, b);
      EncodeAlphabetRaw(b);
    }
    ShortInverse(if s[2] == PAD then s[..2] else s[..3], b);
  }

  /** Characters other than padding decode. */
  lemma EncodeAlphabetRaw(b: bytes)
    requires 0 < |b| <= 2
    ensures |Encode(true, b)| == |b| + 1 && forall i | 0 <= i <= |b| :: Encode(true, b)[i] != PAD
  {
    hide Enc6, Dec6;
    var x, y := b[0] as nat, b[|b| - 1] as nat;
    Dec6InvertsEnc6(0, x / 4);
    Dec6InvertsEnc6(0, x % 4 * 16);
    Dec6InvertsEnc6(0, x % 4 * 16 + y / 16);
    Dec6InvertsEnc6(0, y % 16 * 4);
  }

  /** A letter, a digit, '-', '_', or the padding '='. */
  predicate InAlphabet(c: byte) { 65 <= c <= 90 || 97 <= c <= 122 || 48 <= c <= 57 || c == 45 || c == 95 || c == 61 }

  lemma {:induction false} EncodeAlphabet(raw: bool, b: bytes)
    ensures forall c | c in Encode(raw, b) :: InAlphabet(c)
    decreases |b|
  {
    hide Enc6, Dec6;
    if |b| > 2 {
      EncodeAlphabet(raw, b[3..]);
      forall c | c in Quad(b[0], b[1], b[2]) ensures InAlphabet(c) {
        var x, y, z := b[0] as nat, b[1] as nat, b[2] as nat;
        Dec6InvertsEnc6(c, x / 4);
        Dec6InvertsEnc6(c, x % 4 * 16 + y / 16);
        Dec6InvertsEnc6(c, y % 16 * 4 + z / 64);
        Dec6InvertsEnc6(c, z % 64);
      }
    } else if |b| > 0 {
      forall c | c in Encode(raw, b) ensures InAlphabet(c) {
        var x, y := b[0] as nat, b[|b| - 1] as nat;
        Dec6InvertsEnc6(c, x / 4);
        Dec6InvertsEnc6(c, x % 4 * 16);
        Dec6InvertsEnc6(c, x % 4 * 16 + y / 16);
        Dec6InvertsEnc6(c, y % 16 * 4);
      }
    }
  }

  lemma {:induction false} EncodeLength(raw: bool, b: bytes)
    ensures |Encode(raw, b)| == if raw then (|b| * 8 + 5) / 6 else (|b| + 2) / 3 * 4
    decreases |b|
  {
    hide Enc6, Quad, Group;
    if |b| > 2 {
      QuadLength(b[0], b[1], b[2]);
      EncodeLength(raw, b[3..]);
      assert |b| * 8 + 5 == |b[3..]| * 8 + 5 + 4 * 6;
    } else if |b| > 0 {
      GroupLength(b);
    }
  }

  // ---------- the encoding as the standard tells it ----------

  /** Table 2 of RFC 4648, eight characters to a row. */
  function Row(k: nat): (s: string)
    ensures |s| == 8
  {
    if k == 0 then "ABCDEFGH"
    else if k == 1 then "IJKLMNOP"
    else if k == 2 then "QRSTUVWX"
    else if k == 3 then "YZabcdef"
    else if k == 4 then "ghijklmn"
    else if k == 5 then "opqrstuv"
    else if k == 6 then "wxyz0123"
    else "456789-_"
  }

  function Letter(v: nat): char { Row(v / 8)[v % 8] }

  lemma Enc6IsLetter(v: nat)
    requires v < 64
    ensures Enc6(v) as int == Letter(v) as int
  {
    var k, i := v / 8, v % 8;
    assert v == 8 * k + i;
    RowIs(k, i);
  }

  lemma RowIs(k: nat, i: nat)
    requires k < 8 && i < 8
    ensures Row(k)[i] as int == Enc6(8 * k + i) as int
  {
    assert i == 0 || i == 1 || i == 2 || i == 3 || i == 4 || i == 5 || i == 6 || i == 7;
  }

  /** Bits 6i to 6i + 5 of b, as a number; bits past the end are zero. */
  function Sextet(b: bytes, i: nat): (v: nat)
    requires i * 6 < |b| * 8
    ensures v < 64
  {
    var j, skip := i * 6 / 8, i * 6 % 8;
    var w := b[j] as nat * 256 + if j + 1 < |b| then b[j + 1] as nat else 0;
    w / (if skip == 0 then 1024 else if skip == 2 then 256 else if skip == 4 then 64 else 16) % 64
  }

  /** Character i of an encoding stands for bits 6i to 6i + 5; what follows the last bits is padding. */
  lemma {:induction false} EncodeBits(raw: bool, b: bytes, i: nat)
    requires i < |Encode(raw, b)|
    ensures if i * 6 < |b| * 8 then Encode(raw, b)[i] as int == Letter(Sextet(b, i)) as int
            else !raw && Encode(raw, b)[i] == 61
    decreases |b|
  {
    hide Enc6, Quad, Group, Tail, Letter;
    if |b| > 2 {
      QuadLength(b[0], b[1], b[2]);
      if i < 4 {
        QuadBits(b, i);
      } else {
        EncodeBits(raw, b[3..], i - 4);
        if (i - 4) * 6 < |b[3..]| * 8 { SextetShift(b, i); }
      }
    } else if |b| > 0 {
      GroupBits(raw, b, i);
    }
  }

  lemma SextetShift(b: bytes, i: nat)
    requires 2 < |b| && 4 <= i && i * 6 < |b| * 8
    ensures Sextet(b, i) == Sextet(b[3..], i - 4)
  {
    var j, skip := i * 6 / 8, i * 6 % 8;
    assert (i - 4) * 6 / 8 == j - 3 && (i - 4) * 6 % 8 == skip;
    assert b[3..][j - 3] == b[j];
    assert j + 1 < |b| ==> b[3..][j - 2] == b[j + 1];
  }

  lemma First6(x: nat, y: nat)
    requires x < 256 && y < 256
    ensures (x * 256 + y) / 1024 % 64 == x / 4
  {
    assert x == x / 4 * 4 + x % 4;
  }

  lemma Second6(x: nat, y: nat)
    requires x < 256 && y < 256
    ensures (x * 256 + y) / 16 % 64 == x % 4 * 16 + y / 16
  {
    assert (x * 256 + y) / 16 == x * 16 + y / 16;
    assert x == x / 4 * 4 + x % 4;
  }

  lemma Third6(x: nat, y: nat)
    requires x < 256 && y < 256
    ensures (x * 256 + y) / 64 % 64 == x % 16 * 4 + y / 64
  {
    assert (x * 256 + y) / 64 == x * 4 + y / 64;
    assert x == x / 16 * 16 + x % 16;
  }

  lemma Fourth6(x: nat, y: nat)
    requires x < 256 && y < 256
    ensures (x * 256 + y) / 256 % 64 == x % 64
  {
  }

  /** The first four of them, from the bytes they lie in. */
  lemma Sextets(b: bytes)
    requires 2 < |b|
    ensures Sextet(b, 0) == b[0] as nat / 4
    ensures Sextet(b, 1) == b[0] as nat % 4 * 16 + b[1] as nat / 16
    ensures Sextet(b, 2) == b[1] as nat % 16 * 4 + b[2] as nat / 64
    ensures Sextet(b, 3) == b[2] as nat % 64
  {
    Sextets01(b);
    Sextets23(b);
    hide Sextet;
  }

  lemma Sextets01(b: bytes)
    requires 2 < |b|
    ensures Sextet(b, 0) == b[0] as nat / 4 && Sextet(b, 1) == b[0] as nat % 4 * 16 + b[1] as nat / 16
  {
    First6(b[0] as nat, b[1] as nat);
    Second6(b[0] as nat, b[1] as nat);
  }

  lemma Sextets23(b: bytes)
    requires 2 < |b|
    ensures Sextet(b, 2) == b[1] as nat % 16 * 4 + b[2] as nat / 64 && Sextet(b, 3) == b[2] as nat % 64
  {
    Third6(b[1] as nat, b[2] as nat);
    Fourth6(b[2] as nat, if 3 < |b| then b[3] as nat else 0);
  }

  lemma QuadBits(b: bytes, i: nat)
    requires 2 < |b| && i < 4 && |Quad(b[0], b[1], b[2])| == 4
    ensures Quad(b[0], b[1], b[2])[i] as int == Letter(Sextet(b, i)) as int
  {
    hide Enc6, Sextet, Letter;
    Sextets(b);
    Enc6IsLetter(Sextet(b, i));
    assert i == 0 || i == 1 || i == 2 || i == 3;
  }

  lemma GroupBits(raw: bool, b: bytes, i: nat)
    requires 0 < |b| <= 2 && i < |Encode(raw, b)|
    ensures if i * 6 < |b| * 8 then Encode(raw, b)[i] as int == Letter(Sextet(b, i)) as int
            else !raw && Encode(raw, b)[i] == 61
  {
    hide Enc6, Letter;
    var y := if |b| == 2 then b[1] as nat else 0;
    if i * 6 < |b| * 8 {
      Enc6IsLetter(Sextet(b, i));
      if i == 0 {
        First6(b[0] as nat, y);
      } else if i == 1 {
        Second6(b[0] as nat, y);
      } else {
        Third6(y, 0);
      }
    }
  }
}
