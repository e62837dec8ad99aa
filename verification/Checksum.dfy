/** The CRC-32 of the control packets. */
module Checksum {
  import opened Bytes

  /** One bit of the division by the polynomial. */
  function CrcBit(c: bv32): bv32 { (c >> 1) ^ (if c & 1 == 1 then 0xEDB88320 else 0) }

  function CrcBits(c: bv32, k: nat): bv32
    decreases k
  {
    if k == 0 then c else CrcBits(CrcBit(c), k - 1)
  }

  function Bits(b0: bool, b1: bool, b2: bool, b3: bool, b4: bool, b5: bool, b6: bool, b7: bool): bv32
  {
    (if b0 then 1 else 0) | (if b1 then 2 else 0) | (if b2 then 4 else 0) | (if b3 then 8 else 0)
    | (if b4 then 16 else 0) | (if b5 then 32 else 0) | (if b6 then 64 else 0) | (if b7 then 128 else 0)
  }

  /** A byte as the low bits of the register. */
  function InBits(b: byte): bv32
  {
    Bits(Digit(b, 0), Digit(b, 1), Digit(b, 2), Digit(b, 3), Digit(b, 4), Digit(b, 5), Digit(b, 6), Digit(b, 7))
  }

  function CrcByte(c: bv32, b: byte): bv32 { CrcBits(c ^ InBits(b), 8) }

  /** A byte, shifted through. */
  method TakeByte(c: bv32, b: byte) returns (d: bv32)
    ensures d == CrcByte(c, b)
  {
    hide InBits;
    d := c ^ InBits(b);
    ghost var start := d;
    for k := 0 to 8
      invariant CrcBits(d, 8 - k) == CrcBits(start, 8)
    {
      d := (d >> 1) ^ (if d & 1 != 0 then 0xEDB88320 else 0);
    }
  }

  /** The CRC-32 register after a run of bytes. */
  function CrcRun(c: bv32, s: seq<byte>): bv32
    decreases |s|
  {
    if s == [] then c else CrcRun(CrcByte(c, s[0]), s[1..])
  }

  function Crc32(s: seq<byte>): bv32 { CrcRun(0xFFFFFFFF, s) ^ 0xFFFFFFFF }

  /** A bit, and a byte, can be undone: different registers stay different. */
  lemma CrcBitIsInjective(c: bv32, d: bv32)
    requires CrcBit(c) == CrcBit(d)
    ensures c == d
  {
  }

  lemma {:induction false} CrcBitsAreInjective(c: bv32, d: bv32, k: nat)
    requires CrcBits(c, k) == CrcBits(d, k)
    ensures c == d
    decreases k
  {
    hide CrcBit;
    if k > 0 {
      CrcBitsAreInjective(CrcBit(c), CrcBit(d), k - 1);
      CrcBitIsInjective(c, d);
    }
  }

  lemma XorIsInjective(c: bv32, d: bv32, e: bv32)
    ensures c ^ e == d ^ e ==> c == d
    ensures e ^ c == e ^ d ==> c == d
  {
  }

  lemma BitsTell(b0: bool, b1: bool, b2: bool, b3: bool, b4: bool, b5: bool, b6: bool, b7: bool,
                 c0: bool, c1: bool, c2: bool, c3: bool, c4: bool, c5: bool, c6: bool, c7: bool)
    requires Bits(b0, b1, b2, b3, b4, b5, b6, b7) == Bits(c0, c1, c2, c3, c4, c5, c6, c7)
    ensures b0 == c0 && b1 == c1 && b2 == c2 && b3 == c3 && b4 == c4 && b5 == c5 && b6 == c6 && b7 == c7
  {
  }

  /** The digits of a byte, the lowest first. */
  function Digit(b: byte, k: nat): bool
    decreases k
  {
    if k == 0 then b % 2 == 1 else Digit(b / 2, k - 1)
  }

  lemma DigitsTell(x: byte, y: byte, k: nat)
    requires x < Power(k) && y < Power(k) && forall i: nat :: i < k ==> Digit(x, i) == Digit(y, i)
    ensures x == y
    decreases k
  {
    if k > 0 {
      assert Digit(x, 0) == Digit(y, 0);
      forall i: nat | i < k - 1 ensures Digit(x / 2, i) == Digit(y / 2, i) { assert Digit(x, i + 1) == Digit(y, i + 1); }
      DigitsTell(x / 2, y / 2, k - 1);
    }
  }

  function Power(k: nat): nat { if k == 0 then 1 else 2 * Power(k - 1) }

  ghost predicate SameDigits(x: byte, y: byte)
  {
    && Digit(x, 0) == Digit(y, 0) && Digit(x, 1) == Digit(y, 1) && Digit(x, 2) == Digit(y, 2) && Digit(x, 3) == Digit(y, 3)
    && Digit(x, 4) == Digit(y, 4) && Digit(x, 5) == Digit(y, 5) && Digit(x, 6) == Digit(y, 6) && Digit(x, 7) == Digit(y, 7)
  }

  lemma InBitsTellDigits(x: byte, y: byte)
    requires InBits(x) == InBits(y)
    ensures SameDigits(x, y)
  {
    hide Bits, Digit;
    BitsTell(Digit(x, 0), Digit(x, 1), Digit(x, 2), Digit(x, 3), Digit(x, 4), Digit(x, 5), Digit(x, 6), Digit(x, 7),
             Digit(y, 0), Digit(y, 1), Digit(y, 2), Digit(y, 3), Digit(y, 4), Digit(y, 5), Digit(y, 6), Digit(y, 7));
  }

  lemma InBitsTells(x: byte, y: byte)
    requires InBits(x) == InBits(y)
    ensures x == y
  {
    hide InBits, Digit;
    InBitsTellDigits(x, y);
    assert Power(8) == 256;
    forall i: nat | i < 8 ensures Digit(x, i) == Digit(y, i) { assert i in {0, 1, 2, 3, 4, 5, 6, 7}; }
    DigitsTell(x, y, 8);
  }

  lemma CrcByteTellsBits(c: bv32, d: bv32, a: byte, b: byte)
    requires CrcByte(c, a) == CrcByte(d, b)
    ensures c ^ InBits(a) == d ^ InBits(b)
  {
    hide CrcBits, CrcBit, InBits;
    CrcBitsAreInjective(c ^ InBits(a), d ^ InBits(b), 8);
  }

  lemma CrcByteIsInjective(c: bv32, d: bv32, a: byte)
    requires CrcByte(c, a) == CrcByte(d, a)
    ensures c == d
  {
    hide CrcByte, InBits;
    CrcByteTellsBits(c, d, a, a);
    XorIsInjective(c, d, InBits(a));
  }

  lemma CrcByteTells(c: bv32, a: byte, b: byte)
    requires CrcByte(c, a) == CrcByte(c, b)
    ensures a == b
  {
    hide CrcByte, InBits;
    CrcByteTellsBits(c, c, a, b);
    XorIsInjective(InBits(a), InBits(b), c);
    InBitsTells(a, b);
  }

  lemma {:induction false} CrcRunConcat(c: bv32, s: seq<byte>, t: seq<byte>)
    ensures CrcRun(c, s + t) == CrcRun(CrcRun(c, s), t)
    decreases |s|
  {
    hide CrcByte;
    if s == [] { assert s + t == t; } else {
      assert (s + t)[1..] == s[1..] + t;
      CrcRunConcat(CrcByte(c, s[0]), s[1..], t);
    }
  }

  lemma CrcRunSnoc(c: bv32, s: seq<byte>, b: byte)
    ensures CrcRun(c, s + [b]) == CrcByte(CrcRun(c, s), b)
  {
    hide CrcByte;
    CrcRunConcat(c, s, [b]);
    assert [b][1..] == [];
  }

  lemma {:induction false} CrcRunIsInjective(c: bv32, d: bv32, s: seq<byte>)
    requires CrcRun(c, s) == CrcRun(d, s)
    ensures c == d
    decreases |s|
  {
    hide CrcByte;
    if s != [] {
      CrcRunIsInjective(CrcByte(c, s[0]), CrcByte(d, s[0]), s[1..]);
      CrcByteIsInjective(c, d, s[0]);
    }
  }

  /** The check value that is published for this CRC: that of the nine digits. */
  lemma CheckValue()
    ensures Crc32([49, 50, 51, 52, 53, 54, 55, 56, 57]) == 0xCBF43926
  {
    hide CrcByte;
    var s: seq<byte> := [49, 50, 51, 52, 53, 54, 55, 56, 57];
    FirstDigits();
    NextDigits();
    MiddleDigits();
    LaterDigits();
    LastDigit();
    assert s[1..][1..][1..][1..][1..][1..][1..][1..][1..] == [];
  }

  lemma FirstDigits()
    ensures CrcByte(0xFFFFFFFF, 49) == 0x7C231048
    ensures CrcByte(0x7C231048, 50) == 0xB0ACBB32
  {
    assert InBits(49) == 49;
    assert InBits(50) == 50;
  }

  lemma NextDigits()
    ensures CrcByte(0xB0ACBB32, 51) == 0x77B79C2D
    ensures CrcByte(0x77B79C2D, 52) == 0x641C1F5C
  {
    assert InBits(51) == 51;
    assert InBits(52) == 52;
  }

  lemma MiddleDigits()
    ensures CrcByte(0x641C1F5C, 53) == 0x340AC5E3
    ensures CrcByte(0x340AC5E3, 54) == 0xF68D2C9E
  {
    assert InBits(53) == 53;
    assert InBits(54) == 54;
  }

  lemma LaterDigits()
    ensures CrcByte(0xF68D2C9E, 55) == 0xAFFC9660
    ensures CrcByte(0xAFFC9660, 56) == 0x651F2550
  {
    assert InBits(55) == 55;
    assert InBits(56) == 56;
  }

  lemma LastDigit()
    ensures CrcByte(0x651F2550, 57) == 0x340BC6D9
  {
    assert InBits(57) == 57;
  }

  /** No damage to a single byte goes unseen. */
  lemma OneByteIsSeen(s: seq<byte>, i: nat, b: byte)
    requires i < |s| && b != s[i]
    ensures Crc32(s[i := b]) != Crc32(s)
  {
    hide CrcByte, CrcRun;
    var t := s[i := b];
    var c := CrcRun(0xFFFFFFFF, s[..i]);
    assert s == s[..i] + [s[i]] + s[i + 1..] && t == s[..i] + [b] + s[i + 1..];
    CrcRunConcat(0xFFFFFFFF, s[..i] + [s[i]], s[i + 1..]);
    CrcRunConcat(0xFFFFFFFF, s[..i] + [b], s[i + 1..]);
    CrcRunSnoc(0xFFFFFFFF, s[..i], s[i]);
    CrcRunSnoc(0xFFFFFFFF, s[..i], b);
    XorIsInjective(CrcRun(0xFFFFFFFF, s), CrcRun(0xFFFFFFFF, t), 0xFFFFFFFF);
    if CrcRun(0xFFFFFFFF, s) == CrcRun(0xFFFFFFFF, t) {
      CrcRunIsInjective(CrcByte(c, s[i]), CrcByte(c, b), s[i + 1..]);
      CrcByteTells(c, s[i], b);
    }
  }
}
