/** CRC-32 bit by bit (section 8 of RFC 1952), as `zlib.crc32` computes it, and what it detects. */
module Crc32 {
  import opened Bytes
  import opened BitCodec
  import opened Sequences

  /** A bit register, least significant bit first. */
  type Bits = seq<bool>

  function BitsOf(n: int, width: nat): (r: Bits)
    ensures |r| == width
  {
    seq(width, i requires 0 <= i < width => BitOf(n, i) == 1)
  }

  function Digits(w: Bits): seq<bit> {
    seq(|w|, i requires 0 <= i < |w| => if w[i] then 1 else 0)
  }

  function ValueOf(w: Bits): nat {
    BitSum(Digits(w), |w|)
  }

  function Xor(a: Bits, b: Bits): (r: Bits)
    requires |a| == |b|
    ensures |r| == |a|
  {
    seq(|a|, i requires 0 <= i < |a| => a[i] != b[i])
  }

  function Not(a: Bits): (r: Bits)
    ensures |r| == |a|
  {
    seq(|a|, i requires 0 <= i < |a| => !a[i])
  }

  function Zeroes(n: nat): (r: Bits)
    ensures |r| == n
  {
    seq(n, i => false)
  }

  /** A polynomial of degree below 32, as a register: place i holds the coefficient of x^(31 - i). */
  function Terms(exponents: set<int>): (r: Bits)
    ensures |r| == 32
  {
    seq(32, i => 31 - i in exponents)
  }

  /** The generator without its leading term x^32. */
  const POLYNOMIAL := Terms({26, 23, 22, 16, 12, 11, 10, 8, 7, 5, 4, 2, 1, 0})

  /** One bit of input. */
  function Shift(w: Bits): (r: Bits)
    requires |w| == 32
    ensures |r| == 32
  {
    var s := w[1..] + [false];
    if w[0] then Xor(s, POLYNOMIAL) else s
  }

  function Shifts(w: Bits, n: nat): (r: Bits)
    requires |w| == 32
    ensures |r| == 32
    decreases n
  {
    if n == 0 then w else Shifts(Shift(w), n - 1)
  }

  function ByteStep(w: Bits, b: byte): (r: Bits)
    requires |w| == 32
    ensures |r| == 32
  {
    Shifts(Xor(w, BitsOf(b, 32)), 8)
  }

  function Update(w: Bits, data: seq<byte>): (r: Bits)
    requires |w| == 32
    ensures |r| == 32
    decreases |data|
  {
    if data == [] then w else Update(ByteStep(w, data[0]), data[1..])
  }

  /** zlib.crc32(data, crc) */
  function Crc(data: seq<byte>, crc: nat): nat {
    ValueOf(Not(Update(Not(BitsOf(crc, 32)), data)))
  }

  // --- registers and numbers --------------------------------------------------------------------------

  lemma PowersOfTwo32()
    ensures Pow2(8) == 0x100 && Pow2(16) == 0x1_0000 && Pow2(31) == 0x8000_0000 && Pow2(32) == U32_LIMIT
  {
    PowersOfTwo();
    Pow2Add(8, 8);
    Pow2Add(16, 16);
  }

  lemma BitsOfValue(w: Bits)
    ensures BitsOf(ValueOf(w), |w|) == w
  {
    forall i: nat | i < |w| ensures (BitOf(ValueOf(w), i) == 1) == w[i] {
      BitsOfBitSum(Digits(w), |w|, i);
    }
  }

  lemma CrcBound(data: seq<byte>, crc: nat)
    ensures Crc(data, crc) < U32_LIMIT
  {
    var w := Not(Update(Not(BitsOf(crc, 32)), data));
    BitSumBound(Digits(w), 32);
    PowersOfTwo32();
  }

  lemma ZeroBits()
    ensures BitsOf(0, 32) == Zeroes(32)
  {
    forall i: nat | i < 32 ensures BitOf(0, i) == 0 { DivModUnique(0, Pow2(i), 0, 0); }
  }

  lemma NotNot(a: Bits)
    ensures Not(Not(a)) == a
  {}

  /** Registers of 32 bits that stand for the same number are equal. */
  lemma ValueInjective(a: Bits, b: Bits)
    requires |a| == |b| && ValueOf(a) == ValueOf(b)
    ensures a == b
  {
    BitsOfValue(a);
    BitsOfValue(b);
  }

  // --- streaming --------------------------------------------------------------------------------------

  lemma {:induction false} UpdateAppend(w: Bits, s: seq<byte>, t: seq<byte>)
    requires |w| == 32
    ensures Update(w, s + t) == Update(Update(w, s), t)
    decreases |s|
  {
    if s == [] {
      assert s + t == t;
    } else {
      assert (s + t)[1..] == s[1..] + t;
      UpdateAppend(ByteStep(w, s[0]), s[1..], t);
    }
  }

  /** The CRC can be computed piece by piece. */
  lemma CrcStreams(s: seq<byte>, t: seq<byte>, crc: nat)
    ensures Crc(t, Crc(s, crc)) == Crc(s + t, crc)
  {
    var w := Update(Not(BitsOf(crc, 32)), s);
    BitsOfValue(Not(w));
    NotNot(w);
    UpdateAppend(Not(BitsOf(crc, 32)), s, t);
  }

  // --- detection --------------------------------------------------------------------------------------

  lemma XorInjective(a: Bits, b: Bits, c: Bits)
    requires |a| == |b| == |c| && Xor(a, c) == Xor(b, c)
    ensures a == b
  {
    forall i | 0 <= i < |a| ensures a[i] == b[i] { assert Xor(a, c)[i] == Xor(b, c)[i]; }
  }

  lemma PolynomialTop()
    ensures POLYNOMIAL[31]
  {}

  /** The bit shifted out can be read off the top of the result. */
  lemma ShiftInjective(a: Bits, b: Bits)
    requires |a| == |b| == 32 && Shift(a) == Shift(b)
    ensures a == b
  {
    PolynomialTop();
    hide BitsOf, Terms;
    var s, t := a[1..] + [false], b[1..] + [false];
    assert Shift(a)[31] == a[0] && Shift(b)[31] == b[0];
    if a[0] { XorInjective(s, t, POLYNOMIAL); }
    assert s == t;
    forall i | 0 <= i < 32 ensures a[i] == b[i] {
      if i > 0 { assert s[i - 1] == t[i - 1]; }
    }
  }

  lemma {:induction false} ShiftsInjective(a: Bits, b: Bits, n: nat)
    requires |a| == |b| == 32 && Shifts(a, n) == Shifts(b, n)
    ensures a == b
    decreases n
  {
    if n > 0 {
      ShiftsInjective(Shift(a), Shift(b), n - 1);
      ShiftInjective(a, b);
    }
  }

  lemma {:induction false} UpdateInjective(a: Bits, b: Bits, data: seq<byte>)
    requires |a| == |b| == 32 && Update(a, data) == Update(b, data)
    ensures a == b
    decreases |data|
  {
    if data != [] {
      UpdateInjective(ByteStep(a, data[0]), ByteStep(b, data[0]), data[1..]);
      ShiftsInjective(Xor(a, BitsOf(data[0], 32)), Xor(b, BitsOf(data[0], 32)), 8);
      XorInjective(a, b, BitsOf(data[0], 32));
    }
  }

  /** Input bits that are not yet due only move down one place. */
  lemma ShiftDelays(x: Bits, y: Bits)
    requires |x| == 32 && |y| == 31
    ensures Shift(Xor(x, [false] + y)) == Xor(Shift(x), y + [false])
  {
    hide BitsOf;
    var z := Xor(x, [false] + y);
    assert z[0] == x[0];
    forall i | 0 <= i < 32 ensures Shift(z)[i] == Xor(Shift(x), y + [false])[i] {
      if i < 31 { assert z[1..][i] == (x[1..][i] != y[i]); }
    }
  }

  lemma {:induction false} ShiftsDelay(x: Bits, y: Bits, n: nat)
    requires |x| == 32 && n + |y| == 32
    ensures Shifts(Xor(x, Zeroes(n) + y), n) == Xor(Shifts(x, n), y + Zeroes(n))
    decreases n
  {
    if n == 0 {
      assert Zeroes(0) + y == y + Zeroes(0);
    } else {
      assert Zeroes(n) + y == [false] + (Zeroes(n - 1) + y);
      ShiftDelays(x, Zeroes(n - 1) + y);
      assert (Zeroes(n - 1) + y) + [false] == Zeroes(n - 1) + (y + [false]);
      ShiftsDelay(Shift(x), y + [false], n - 1);
      assert (y + [false]) + Zeroes(n - 1) == y + Zeroes(n);
    }
  }

  lemma {:induction false} ShiftsAdd(w: Bits, m: nat, n: nat)
    requires |w| == 32
    ensures Shifts(Shifts(w, m), n) == Shifts(w, m + n)
    decreases m
  {
    if m > 0 { ShiftsAdd(Shift(w), m - 1, n); }
  }

  /** The bits of a byte string, in the order in which they enter the register. */
  function InputBits(data: seq<byte>): (r: Bits)
    ensures |r| == 8 * |data|
  {
    if data == [] then [] else BitsOf(data[0], 8) + InputBits(data[1..])
  }

  lemma HighBitsAreZero(b: byte, i: nat)
    requires 8 <= i
    ensures BitOf(b, i) == 0
  {
    PowersOfTwo();
    Pow2Grows(8, i);
    DivModUnique(b, Pow2(i), 0, b);
  }

  lemma {:induction false} Pow2Grows(m: nat, n: nat)
    requires m <= n
    ensures Pow2(m) <= Pow2(n)
    decreases n
  {
    if m < n { Pow2Grows(m, n - 1); }
  }

  lemma ByteFills(b: byte)
    ensures BitsOf(b, 32) == BitsOf(b, 8) + Zeroes(24)
  {
    hide BitOf;
    forall i: nat | 8 <= i < 32 ensures BitOf(b, i) == 0 { HighBitsAreZero(b, i); }
  }

  lemma XorSplit(x: Bits, a: Bits, b: Bits, z: Bits)
    requires |x| == |a| + |b| == |z| + |b| && |a| == |z| && z == Zeroes(|a|)
    ensures Xor(x, a + b) == Xor(Xor(x, a + Zeroes(|b|)), z + b)
  {}

  lemma AssociateZeroes(x: Bits, m: nat, n: nat)
    ensures (x + Zeroes(m)) + Zeroes(n) == x + Zeroes(m + n)
  {}

  /** Eight bits shifted in before the rest arrives, or all at once. */
  lemma ByteThenLater(w: Bits, first: Bits, later: Bits, n: nat)
    requires |w| == 32 && |first| == 8 && |later| == 24
    ensures Shifts(Xor(Shifts(Xor(w, first + Zeroes(24)), 8), later + Zeroes(8)), n)
         == Shifts(Xor(w, first + later), 8 + n)
  {
    hide Shifts, Shift, Xor, Zeroes, BitsOf, Terms;
    ShiftsDelay(Xor(w, first + Zeroes(24)), later, 8);
    XorSplit(w, first, later, Zeroes(8));
    ShiftsAdd(Xor(w, first + later), 8, n);
  }

  lemma ByteThenRest(w: Bits, first: Bits, rest: Bits, z: nat)
    requires |w| == 32 && |first| == 8 && 8 + |rest| + z == 32
    ensures Shifts(Xor(Shifts(Xor(w, first + Zeroes(24)), 8), rest + Zeroes(z + 8)), |rest|)
         == Shifts(Xor(w, (first + rest) + Zeroes(z)), 8 + |rest|)
  {
    hide Shifts, Shift, Xor, Zeroes, BitsOf, Terms;
    AssociateZeroes(rest, z, 8);
    Associate(first, rest, Zeroes(z));
    ByteThenLater(w, first, rest + Zeroes(z), |rest|);
  }

  lemma NothingToAdd(w: Bits)
    ensures Xor(w, Zeroes(|w|)) == w
  {}

  /** Up to four bytes can be brought into the register at once. */
  lemma {:induction false} UpdateAtOnce(w: Bits, data: seq<byte>)
    requires |w| == 32 && |data| <= 4
    ensures Update(w, data) == Shifts(Xor(w, InputBits(data) + Zeroes(32 - 8 * |data|)), 8 * |data|)
    decreases |data|
  {
    hide Xor, BitsOf, Shift;
    if data == [] {
      NothingToAdd(w);
      assert [] + Zeroes(32) == Zeroes(32);
    } else {
      UpdateAtOnce(ByteStep(w, data[0]), data[1..]);
      ByteFills(data[0]);
      AssociateZeroes(InputBits(data[1..]), 32 - 8 * |data|, 8);
      ByteThenRest(w, BitsOf(data[0], 8), InputBits(data[1..]), 32 - 8 * |data|);
    }
  }

  lemma {:induction false} InputBitsInjective(s: seq<byte>, t: seq<byte>)
    requires |s| == |t| && InputBits(s) == InputBits(t)
    ensures s == t
    decreases |s|
  {
    if s != [] {
      assert BitsOf(s[0], 8) == InputBits(s)[..8] == InputBits(t)[..8] == BitsOf(t[0], 8);
      assert InputBits(s[1..]) == InputBits(s)[8..] == InputBits(t)[8..] == InputBits(t[1..]);
      ByteFromBits(s[0], t[0]);
      InputBitsInjective(s[1..], t[1..]);
    }
  }

  lemma ByteFromBits(a: byte, b: byte)
    requires BitsOf(a, 8) == BitsOf(b, 8)
    ensures a == b
  {
    PowersOfTwo();
    var bits: seq<bit> := BitList(a, 8);
    forall i: nat | i < 8 ensures bits[i] == BitOf(b, i) {
      assert BitsOf(a, 8)[i] == BitsOf(b, 8)[i];
    }
    BitSumOfBits(a, bits, 8);
    BitSumOfBits(b, bits, 8);
  }

  /** Any change confined to four consecutive bytes changes the CRC, whatever comes before and after. */
  lemma CrcDetectsBurst(before: seq<byte>, s: seq<byte>, t: seq<byte>, after: seq<byte>, crc: nat)
    requires |s| == |t| <= 4 && s != t
    ensures Crc(before + s + after, crc) != Crc(before + t + after, crc)
  {
    var w := Not(BitsOf(crc, 32));
    var u := Update(w, before);
    UpdateAppend(w, before, s);
    UpdateAppend(w, before, t);
    UpdateAppend(w, before + s, after);
    UpdateAppend(w, before + t, after);
    if Crc(before + s + after, crc) == Crc(before + t + after, crc) {
      ValueInjective(Not(Update(w, before + s + after)), Not(Update(w, before + t + after)));
      NotNot(Update(w, before + s + after));
      NotNot(Update(w, before + t + after));
      UpdateInjective(Update(u, s), Update(u, t), after);
      BurstChangesRegister(u, s, t);
    }
  }

  lemma PrefixesDiffer(a: Bits, b: Bits, z: Bits)
    requires |a| == |b| && a + z == b + z
    ensures a == b
  {
    assert a == (a + z)[..|a|] == (b + z)[..|b|] == b;
  }

  lemma RegistersOfEqualInput(u: Bits, a: Bits, b: Bits, n: nat)
    requires |u| == |a| == |b| == 32 && Shifts(Xor(u, a), n) == Shifts(Xor(u, b), n)
    ensures a == b
  {
    hide Shifts, Xor;
    ShiftsInjective(Xor(u, a), Xor(u, b), n);
    XorCommutes(u, a);
    XorCommutes(u, b);
    XorInjective(a, b, u);
  }

  lemma {:induction false} BurstChangesRegister(u: Bits, s: seq<byte>, t: seq<byte>)
    requires |u| == 32 && |s| == |t| <= 4 && Update(u, s) == Update(u, t)
    ensures s == t
  {
    hide *;
    var n, z := 8 * |s|, Zeroes(32 - 8 * |s|);
    UpdateAtOnce(u, s);
    UpdateAtOnce(u, t);
    RegistersOfEqualInput(u, InputBits(s) + z, InputBits(t) + z, n);
    PrefixesDiffer(InputBits(s), InputBits(t), z);
    InputBitsInjective(s, t);
  }

  lemma XorCommutes(a: Bits, b: Bits)
    requires |a| == |b|
    ensures Xor(a, b) == Xor(b, a)
  {}
}
