/** CRC-32 as zlib computes it (section 8 of RFC 1952), on numbers: one bit of the register at a time. */
module Crc {
  import opened Bytes

  const POLYNOMIAL: nat := 0xEDB8_8320
  const ONES: nat := 0xFFFF_FFFF

  /** Bitwise exclusive or. */
  function Xor(a: nat, b: nat): nat {
    if a == 0 && b == 0 then 0 else 2 * Xor(a / 2, b / 2) + if a % 2 == b % 2 then 0 else 1
  }

  function ShiftBits(c: nat, n: nat): nat {
    if n == 0 then c
    else
      var d := ShiftBits(c, n - 1);
      if d % 2 == 1 then Xor(d / 2, POLYNOMIAL) else d / 2
  }

  function ShiftByte(c: nat, b: byte): nat {
    ShiftBits(Xor(c, b), 8)
  }

  function Fold(c: nat, s: seq<byte>): nat {
    if s == [] then c else ShiftByte(Fold(c, s[..|s| - 1]), s[|s| - 1])
  }

  /** `crc32(crc, s, |s|)`: the checksum continued over `s`, complemented before and after. */
  function Update(crc: nat, s: seq<byte>): nat {
    Xor(Fold(Xor(crc, ONES), s), ONES)
  }

  /** What `crc & 0xffff` leaves. */
  function Low16(c: nat): (n: nat)
    ensures n < 0x1_0000 && exists k :: c == 0x1_0000 * k + n
  {
    assert c == 0x1_0000 * (c / 0x1_0000) + c % 0x1_0000;
    c % 0x1_0000
  }

  lemma {:induction false} FoldConcat(c: nat, a: seq<byte>, b: seq<byte>)
    ensures Fold(c, a + b) == Fold(Fold(c, a), b)
  {
    if b == [] {
      assert a + b == a;
    } else {
      FoldConcat(c, a, b[..|b| - 1]);
      assert (a + b)[..|a + b| - 1] == a + b[..|b| - 1];
    }
  }

  lemma {:induction false} XorTwice(a: nat, m: nat)
    ensures Xor(Xor(a, m), m) == a
  {
    if a != 0 || m != 0 {
      XorTwice(a / 2, m / 2);
      var x, h := Xor(a, m), Xor(a / 2, m / 2);
      assert x / 2 == h && x % 2 == if a % 2 == m % 2 then 0 else 1;
    }
  }

  /** Feeding the pieces one after the other is feeding the whole. */
  lemma {:induction false} UpdateConcat(crc: nat, a: seq<byte>, b: seq<byte>)
    ensures Update(Update(crc, a), b) == Update(crc, a + b)
  {
    FoldConcat(Xor(crc, ONES), a, b);
    XorTwice(Fold(Xor(crc, ONES), a), ONES);
  }

  // ---- what fixes the numbers ----

  function Power2(n: nat): nat {
    if n == 0 then 1 else 2 * Power2(n - 1)
  }

  /** What the one bit shifted out of a register puts back is the polynomial x^32 + x^26 + x^23 + x^22 + x^16 + x^12 + x^11 +
      x^10 + x^8 + x^7 + x^5 + x^4 + x^2 + x + 1, the highest power in the lowest bit. */
  lemma PolynomialPowers()
    ensures ShiftBits(1, 1)
            == Power2(31 - 26) + Power2(31 - 23) + Power2(31 - 22) + Power2(31 - 16) + Power2(31 - 12) + Power2(31 - 11)
               + Power2(31 - 10) + Power2(31 - 8) + Power2(31 - 7) + Power2(31 - 5) + Power2(31 - 4) + Power2(31 - 2)
               + Power2(31 - 1) + Power2(31 - 0)
  {
    hide Xor, Power2;
    FirstShift();
    PowerSum();
  }

  lemma FirstShift()
    ensures ShiftBits(1, 1) == 0xEDB8_8320
  {
    hide Xor;
    assert ShiftBits(1, 0) == 1;
    XorZero(POLYNOMIAL);
  }

  lemma PowerSum()
    ensures Power2(5) == 0x20 && Power2(8) == 0x100 && Power2(9) == 0x200 && Power2(15) == 0x8000
    ensures Power2(19) == 0x8_0000 && Power2(20) == 0x10_0000 && Power2(21) == 0x20_0000 && Power2(23) == 0x80_0000
    ensures Power2(24) == 0x100_0000 && Power2(26) == 0x400_0000 && Power2(27) == 0x800_0000
    ensures Power2(29) == 0x2000_0000 && Power2(30) == 0x4000_0000 && Power2(31) == 0x8000_0000
  {
  }

  lemma {:induction false} XorZero(b: nat)
    ensures Xor(0, b) == b && Xor(b, 0) == b
  {
    if b > 0 {
      XorZero(b / 2);
    }
  }

  lemma {:induction false} XorSelf(a: nat)
    ensures Xor(a, a) == 0
  {
    if a > 0 {
      XorSelf(a / 2);
    }
  }

  /** A byte makes eight bits leave the register: without a one among them it is divided by 256. A byte that equals the
      lowest bits cancels them. */
  lemma ByteShift(k: nat, b: byte)
    ensures ShiftByte(256 * k, 0) == k
    ensures ShiftByte(b, b) == 0
  {
    XorZero(256 * k);
    XorSelf(b);
    EightZeros(k);
    EightZeros(0);
    EvenShift(k, 8);
    EvenShift(0, 8);
  }

  lemma EightZeros(k: nat)
    ensures ZerosBelow(k, 8) == 256 * k
  {
    assert ZerosBelow(k, 8) == ZerosBelow(2 * k, 7) == ZerosBelow(4 * k, 6);
    assert ZerosBelow(4 * k, 6) == ZerosBelow(8 * k, 5) == ZerosBelow(16 * k, 4);
    assert ZerosBelow(16 * k, 4) == ZerosBelow(32 * k, 3) == ZerosBelow(64 * k, 2);
    assert ZerosBelow(64 * k, 2) == ZerosBelow(128 * k, 1) == ZerosBelow(256 * k, 0);
  }

  /** `k` with `n` zero bits below it. */
  function ZerosBelow(k: nat, n: nat): nat
    decreases n
  {
    if n == 0 then k else ZerosBelow(2 * k, n - 1)
  }

  lemma {:induction false} EvenShift(k: nat, n: nat)
    ensures ShiftBits(ZerosBelow(k, n), n) == k
    decreases n
  {
    if n > 0 {
      EvenShift(2 * k, n - 1);
    }
  }

  /** The checksum of nothing is zero, and all ones stay all ones over zero bytes: that fixes the complement. */
  lemma {:induction false} ZerosStay(zeros: seq<byte>)
    requires forall i :: 0 <= i < |zeros| ==> zeros[i] == 0
    ensures Update(0, []) == 0 && Update(0xFFFF_FFFF, zeros) == 0xFFFF_FFFF
  {
    XorTwice(0, ONES);
    XorSelf(ONES);
    XorZero(ONES);
    ZerosFold(zeros);
  }

  lemma {:induction false} ZerosFold(zeros: seq<byte>)
    requires forall i :: 0 <= i < |zeros| ==> zeros[i] == 0
    ensures Fold(0, zeros) == 0
  {
    if zeros != [] {
      ZerosFold(zeros[..|zeros| - 1]);
      ByteShift(0, 0);
    }
  }
}
