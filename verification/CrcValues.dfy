/** Checksums that are known, and the residue law. Registers are held in words of 32 bits here. */
module CrcValues {
  import opened Bytes
  import opened BitCodec
  import opened Crc32

  // --- registers as words -----------------------------------------------------------------------------

  function RegisterOf(v: bv32, n: nat): (r: Bits)
    ensures |r| == n
    decreases n
  {
    if n == 0 then [] else [Low(v)] + RegisterOf(Half(v), n - 1)
  }

  predicate Low(v: bv32) {
    v & 1 != 0
  }

  function Half(v: bv32): bv32 {
    v >> 1
  }

  function Sum(u: bv32, v: bv32): bv32 {
    u ^ v
  }

  function Register(v: bv32): (r: Bits)
    ensures |r| == 32
  {
    RegisterOf(v, 32)
  }

  function Stepped(v: bv32): bv32 {
    if Low(v) then Sum(Half(v), 0xEDB8_8320) else Half(v)
  }

  function EightSteps(v: bv32): bv32 {
    Stepped(Stepped(Stepped(Stepped(Stepped(Stepped(Stepped(Stepped(v))))))))
  }

  const POLYNOMIAL_BITS: Bits :=
    [false, false, false, false, false, true, false, false, true, true, false, false, false, false,
     false, true, false, false, false, true, true, true, false, true, true, false, true, true, false,
     true, true, true]

  lemma PolynomialIs()
    ensures POLYNOMIAL == Register(0xEDB8_8320)
  {
    PolynomialBits();
    WordBits();
  }

  lemma PolynomialBits()
    ensures POLYNOMIAL == POLYNOMIAL_BITS
  {
    forall i | 0 <= i < 32 ensures POLYNOMIAL[i] == POLYNOMIAL_BITS[i] {
      assert POLYNOMIAL[i] == (31 - i in {26, 23, 22, 16, 12, 11, 10, 8, 7, 5, 4, 2, 1, 0});
    }
  }

  lemma NibbleOfBits(v: bv32)
    ensures Low(v) == (v & 1 != 0) && Low(Half(v)) == (v & 2 != 0) && Low(Half(Half(v))) == (v & 4 != 0)
    ensures Low(Half(Half(Half(v)))) == (v & 8 != 0) && Half(Half(Half(Half(v)))) == v >> 4
  {
    TwoHalves(v);
    TwoHalves(v >> 2);
    ShiftedBits(v);
    hide Low, Half;
  }

  lemma TwoHalves(v: bv32)
    ensures Half(Half(v)) == v >> 2 && Low(v) == (v & 1 != 0) && Low(Half(v)) == (v & 2 != 0)
  {}

  lemma ShiftedBits(v: bv32)
    ensures (v >> 2) >> 2 == v >> 4 && ((v >> 2) & 1 != 0) == (v & 4 != 0) && ((v >> 2) & 2 != 0) == (v & 8 != 0)
  {}

  lemma RegisterNibble(v: bv32, n: nat)
    ensures RegisterOf(v, n + 4) == [v & 1 != 0, v & 2 != 0, v & 4 != 0, v & 8 != 0] + RegisterOf(v >> 4, n)
  {
    NibbleOfBits(v);
    hide Low, Half;
    var a := Half(v);
    var b := Half(a);
    var c := Half(b);
    assert RegisterOf(v, n + 4) == [Low(v)] + RegisterOf(a, n + 3);
    assert RegisterOf(a, n + 3) == [Low(a)] + RegisterOf(b, n + 2);
    assert RegisterOf(b, n + 2) == [Low(b)] + RegisterOf(c, n + 1);
    assert RegisterOf(c, n + 1) == [Low(c)] + RegisterOf(Half(c), n);
  }

  lemma WordBits()
    ensures Register(0xEDB8_8320) == POLYNOMIAL_BITS
  {
    UpperBits();
    LowerBits();
    assert |POLYNOMIAL_BITS| == 32;
    hide *;
    assert POLYNOMIAL_BITS == POLYNOMIAL_BITS[..16] + POLYNOMIAL_BITS[16..];
  }

  lemma LowerBits()
    ensures RegisterOf(0xEDB8_8320, 32) == POLYNOMIAL_BITS[..16] + RegisterOf(0xEDB8, 16)
  {
    hide RegisterOf;
    RegisterNibble(0xEDB8_8320, 28);
    RegisterNibble(0xEDB_8832, 24);
    RegisterNibble(0xED_B883, 20);
    RegisterNibble(0xE_DB88, 16);
    FourNibbles([false, false, false, false], [false, true, false, false], [true, true, false, false],
                [false, false, false, true], RegisterOf(0xEDB8, 16));
  }

  lemma FourNibbles(a: Bits, b: Bits, c: Bits, d: Bits, rest: Bits)
    ensures a + (b + (c + (d + rest))) == (a + b + c + d) + rest
  {}

  lemma UpperBits()
    ensures RegisterOf(0xEDB8, 16) == POLYNOMIAL_BITS[16..]
  {
    hide RegisterOf;
    RegisterNibble(0xEDB8, 12);
    RegisterNibble(0xEDB, 8);
    RegisterNibble(0xED, 4);
    RegisterNibble(0xE, 0);
    NoBits(0);
  }

  lemma NoBits(v: bv32)
    ensures RegisterOf(v, 0) == []
  {}

  lemma SumParts(u: bv32, v: bv32)
    ensures Half(Sum(u, v)) == Sum(Half(u), Half(v)) && Low(Sum(u, v)) == (Low(u) != Low(v))
  {}

  lemma XorOfHeads(x: bool, a: Bits, y: bool, b: Bits)
    requires |a| == |b|
    ensures Xor([x] + a, [y] + b) == [x != y] + Xor(a, b)
  {}

  lemma {:induction false} XorOf(u: bv32, v: bv32, n: nat)
    ensures Xor(RegisterOf(u, n), RegisterOf(v, n)) == RegisterOf(Sum(u, v), n)
    decreases n
  {
    hide Low, Half, Sum, Xor;
    if n > 0 {
      SumParts(u, v);
      XorOf(Half(u), Half(v), n - 1);
      XorOfHeads(Low(u), RegisterOf(Half(u), n - 1), Low(v), RegisterOf(Half(v), n - 1));
    } else {
      XorOfNothing(RegisterOf(u, n), RegisterOf(v, n));
    }
  }

  lemma XorOfNothing(a: Bits, b: Bits)
    requires a == b == []
    ensures Xor(a, b) == []
  {}

  function Halved(v: bv32, n: nat): bv32
    decreases n
  {
    if n == 0 then v else Halved(Half(v), n - 1)
  }

  lemma NothingLeft(v: bv32)
    ensures Halved(v, 8) == v >> 8
  {}

  lemma {:induction false} HalvedAgain(v: bv32, m: nat, n: nat)
    ensures Halved(Halved(v, m), n) == Halved(v, m + n)
    decreases m
  {
    hide Half;
    if m > 0 { HalvedAgain(Half(v), m - 1, n); }
  }

  lemma AllHalved(v: bv32)
    ensures Halved(v, 32) == 0
  {
    NothingLeft(v);
    NothingLeft(v >> 8);
    NothingLeft(v >> 8 >> 8);
    NothingLeft(v >> 8 >> 8 >> 8);
    hide Halved;
    HalvedAgain(v, 8, 8);
    HalvedAgain(v, 16, 8);
    HalvedAgain(v, 24, 8);
  }

  lemma {:induction false} LastOfRegister(v: bv32, n: nat)
    ensures RegisterOf(v, n + 1) == RegisterOf(v, n) + [Low(Halved(v, n))]
    decreases n
  {
    hide Low, Half;
    if n > 0 { LastOfRegister(Half(v), n - 1); }
  }

  lemma DroppedBit(v: bv32)
    ensures Register(v)[1..] + [false] == Register(Half(v)) && Register(v)[0] == Low(v)
  {
    AllHalved(v);
    assert Halved(v, 32) == Halved(Half(v), 31);
    assert !Low(0);
    hide Halved, Low, Half;
    LastOfRegister(Half(v), 31);
    assert ([Low(v)] + RegisterOf(Half(v), 31))[1..] == RegisterOf(Half(v), 31);
  }

  lemma StepOf(v: bv32)
    ensures Shift(Register(v)) == Register(Stepped(v))
  {
    PolynomialIs();
    DroppedBit(v);
    XorOf(Half(v), 0xEDB8_8320, 32);
    hide RegisterOf, Xor, Terms, Low, Half, Sum;
  }

  lemma {:induction false} StepsOf(v: bv32, n: nat)
    ensures Shifts(Register(v), n) == Register(Steps(v, n))
    decreases n
  {
    hide Shift, Register, Stepped;
    if n > 0 {
      StepOf(v);
      StepsOf(Stepped(v), n - 1);
    }
  }

  function Steps(v: bv32, n: nat): bv32
    decreases n
  {
    if n == 0 then v else Steps(Stepped(v), n - 1)
  }

  lemma StepsOfEight(v: bv32)
    ensures Shifts(Register(v), 8) == Register(EightSteps(v))
  {
    hide Register, Stepped, Shifts;
    StepsOf(v, 8);
  }

  // --- numbers ------------------------------------------------------------------------------------------

  /** The bits of a number, from the lowest. */
  function Binary(n: nat, width: nat): (r: Bits)
    ensures |r| == width
    decreases width
  {
    if width == 0 then [] else [n % 2 == 1] + Binary(n / 2, width - 1)
  }

  lemma {:induction false} BinaryIs(n: nat, width: nat)
    ensures Binary(n, width) == BitsOf(n, width)
    decreases width
  {
    hide BitOf;
    if width > 0 {
      BinaryIs(n / 2, width - 1);
      LowestBit(n);
      forall i: nat | 0 < i < width ensures BitOf(n, i) == BitOf(n / 2, i - 1) { NextBit(n, i); }
    }
  }

  lemma LowestBit(n: nat)
    ensures BitOf(n, 0) == n % 2
  {
    assert Pow2(0) == 1;
  }

  lemma NextBit(n: nat, i: nat)
    requires i > 0
    ensures BitOf(n, i) == BitOf(n / 2, i - 1)
  {
    var q, r, p := n / 2 / Pow2(i - 1), n / 2 % Pow2(i - 1), Pow2(i - 1);
    assert n / 2 == q * p + r && Pow2(i) == 2 * p;
    hide Pow2;
    assert n == q * (2 * p) + (2 * r + n % 2);
    DivModUnique(n, 2 * p, q, 2 * r + n % 2);
  }

  lemma BinaryNibble(n: nat, k: nat)
    ensures Binary(n, k + 4) == [n % 2 == 1, n / 2 % 2 == 1, n / 4 % 2 == 1, n / 8 % 2 == 1] + Binary(n / 16, k)
  {
    assert n / 2 / 2 == n / 4 && n / 4 / 2 == n / 8 && n / 8 / 2 == n / 16;
    assert Binary(n, k + 4) == [n % 2 == 1] + Binary(n / 2, k + 3);
    assert Binary(n / 2, k + 3) == [n / 2 % 2 == 1] + Binary(n / 4, k + 2);
    assert Binary(n / 4, k + 2) == [n / 4 % 2 == 1] + Binary(n / 8, k + 1);
    assert Binary(n / 8, k + 1) == [n / 8 % 2 == 1] + Binary(n / 16, k);
  }

  /** The word and the number agree in their lowest four bits, and above them. */
  predicate AgreeInNibble(v: bv32, n: nat, k: nat) {
    && (v & 1 != 0) == (n % 2 == 1) && (v & 2 != 0) == (n / 2 % 2 == 1)
    && (v & 4 != 0) == (n / 4 % 2 == 1) && (v & 8 != 0) == (n / 8 % 2 == 1)
    && RegisterOf(v >> 4, k) == Binary(n / 16, k)
  }

  lemma SameNibble(v: bv32, n: nat, k: nat)
    requires AgreeInNibble(v, n, k)
    ensures RegisterOf(v, k + 4) == Binary(n, k + 4)
  {
    RegisterNibble(v, k);
    BinaryNibble(n, k);
  }

  lemma {:induction false} SameZero(n: nat)
    ensures RegisterOf(0, n) == Binary(0, n)
    decreases n
  {
    if n > 0 { SameZero(n - 1); }
  }

  lemma DigitBits(b: byte, c: bv32)
    requires 0x31 <= b <= 0x39 && AgreeInNibble(c, b, 28)
    ensures BitsOf(b, 32) == Register(c)
  {
    SameNibble(c, b, 28);
    BinaryIs(b, 32);
  }

  lemma Next(u: bv32, v: bv32, b: byte, c: bv32)
    requires BitsOf(b, 32) == Register(c) && EightSteps(Sum(u, c)) == v
    ensures ByteStep(Register(u), b) == Register(v)
  {
    hide EightSteps, Sum, RegisterOf;
    XorOf(u, c, 32);
    StepsOfEight(Sum(u, c));
  }

  lemma OneDigit(b: byte, c: bv32)
    requires 0x31 <= b <= 0x39 && c >> 4 == 3 && b / 16 == 3
    requires (c & 1 != 0) == (b % 2 == 1) && (c & 2 != 0) == (b / 2 % 2 == 1)
    requires (c & 4 != 0) == (b / 4 % 2 == 1) && (c & 8 != 0) == (b / 8 % 2 == 1)
    ensures BitsOf(b, 32) == Register(c)
  {
    hide RegisterOf, Binary;
    SameZero(24);
    SameNibble(3, 3, 24);
    DigitBits(b, c);
  }

  // --- the values ---------------------------------------------------------------------------------------

  lemma CheckIsUpper()
    ensures RegisterOf(0xCBF4, 16) == Binary(0xCBF4, 16)
  {
    hide RegisterOf, Binary;
    SameNibble(0xC, 0xC, 0);
    SameNibble(0xCB, 0xCB, 4);
    SameNibble(0xCBF, 0xCBF, 8);
    SameNibble(0xCBF4, 0xCBF4, 12);
  }

  lemma CheckIs()
    ensures Register(0xCBF4_3926) == BitsOf(0xCBF4_3926, 32)
  {
    hide RegisterOf, Binary;
    CheckIsUpper();
    SameNibble(0xC_BF43, 0xC_BF43, 16);
    SameNibble(0xCB_F439, 0xCB_F439, 20);
    SameNibble(0xCBF_4392, 0xCBF_4392, 24);
    SameNibble(0xCBF4_3926, 0xCBF4_3926, 28);
    BinaryIs(0xCBF4_3926, 32);
  }

  lemma ResidueIsUpper()
    ensures RegisterOf(0x2144, 16) == Binary(0x2144, 16)
  {
    hide RegisterOf, Binary;
    SameNibble(0x2, 0x2, 0);
    SameNibble(0x21, 0x21, 4);
    SameNibble(0x214, 0x214, 8);
    SameNibble(0x2144, 0x2144, 12);
  }

  lemma ResidueIs()
    ensures Register(0x2144_DF1C) == BitsOf(0x2144_DF1C, 32)
  {
    hide RegisterOf, Binary;
    ResidueIsUpper();
    SameNibble(0x2_144D, 0x2_144D, 16);
    SameNibble(0x21_44DF, 0x21_44DF, 20);
    SameNibble(0x214_4DF1, 0x214_4DF1, 24);
    SameNibble(0x2144_DF1C, 0x2144_DF1C, 28);
    BinaryIs(0x2144_DF1C, 32);
  }

  lemma SetNibble(v: bv32, k: nat)
    requires v & 1 != 0 && v & 2 != 0 && v & 4 != 0 && v & 8 != 0 && RegisterOf(v >> 4, k) == Not(Zeroes(k))
    ensures RegisterOf(v, k + 4) == Not(Zeroes(k + 4))
  {
    RegisterNibble(v, k);
  }

  lemma StartIs()
    ensures Not(BitsOf(0, 32)) == Not(Zeroes(32)) == Register(0xFFFF_FFFF)
  {
    ZeroBits();
    hide RegisterOf, Not, BitsOf;
    SetNibble(0xF, 0);
    SetNibble(0xFF, 4);
    SetNibble(0xFFF, 8);
    SetNibble(0xFFFF, 12);
    SetNibble(0xF_FFFF, 16);
    SetNibble(0xFF_FFFF, 20);
    SetNibble(0xFFF_FFFF, 24);
    SetNibble(0xFFFF_FFFF, 28);
  }

  /** Inverting a register is inverting the word. */
  lemma NotIs(v: bv32)
    ensures Not(Register(v)) == Register(Sum(v, 0xFFFF_FFFF))
  {
    hide RegisterOf, Sum;
    StartIs();
    XorOf(v, 0xFFFF_FFFF, 32);
    XorOnes(Register(v));
  }

  lemma XorOnes(w: Bits)
    requires |w| == 32
    ensures Xor(w, Not(Zeroes(32))) == Not(w)
  {}

  lemma ValueIs(v: bv32, n: nat)
    requires n < U32_LIMIT && Register(v) == BitsOf(n, 32)
    ensures ValueOf(Register(v)) == n
  {
    hide RegisterOf, BitOf;
    BitSumOfBits(n, Digits(Register(v)), 32);
    PowersOfTwo32();
  }

  lemma ThreeBytes(w: Bits, a: byte, b: byte, c: byte)
    requires |w| == 32
    ensures Update(w, [a, b, c]) == ByteStep(ByteStep(ByteStep(w, a), b), c)
  {
    hide ByteStep;
    var x := ByteStep(w, a);
    var y := ByteStep(x, b);
    assert [a, b, c][1..] == [b, c] && [b, c][1..] == [c] && [c][1..] == [];
    assert Update(w, [a, b, c]) == Update(x, [b, c]) && Update(x, [b, c]) == Update(y, [c]);
  }

  lemma FirstThree()
    ensures Update(Register(0xFFFF_FFFF), [0x31, 0x32, 0x33]) == Register(0x77B7_9C2D)
  {
    hide RegisterOf, ByteStep, BitsOf;
    OneDigit(0x31, 0x31);
    OneDigit(0x32, 0x32);
    OneDigit(0x33, 0x33);
    Next(0xFFFF_FFFF, 0x7C23_1048, 0x31, 0x31);
    Next(0x7C23_1048, 0xB0AC_BB32, 0x32, 0x32);
    Next(0xB0AC_BB32, 0x77B7_9C2D, 0x33, 0x33);
    ThreeBytes(Register(0xFFFF_FFFF), 0x31, 0x32, 0x33);
  }

  lemma NextThree()
    ensures Update(Register(0x77B7_9C2D), [0x34, 0x35, 0x36]) == Register(0xF68D_2C9E)
  {
    hide RegisterOf, ByteStep, BitsOf;
    OneDigit(0x34, 0x34);
    OneDigit(0x35, 0x35);
    OneDigit(0x36, 0x36);
    Next(0x77B7_9C2D, 0x641C_1F5C, 0x34, 0x34);
    Next(0x641C_1F5C, 0x340A_C5E3, 0x35, 0x35);
    Next(0x340A_C5E3, 0xF68D_2C9E, 0x36, 0x36);
    ThreeBytes(Register(0x77B7_9C2D), 0x34, 0x35, 0x36);
  }

  lemma LastThree()
    ensures Update(Register(0xF68D_2C9E), [0x37, 0x38, 0x39]) == Register(0x340B_C6D9)
  {
    hide RegisterOf, ByteStep, BitsOf;
    OneDigit(0x37, 0x37);
    OneDigit(0x38, 0x38);
    OneDigit(0x39, 0x39);
    Next(0xF68D_2C9E, 0xAFFC_9660, 0x37, 0x37);
    Next(0xAFFC_9660, 0x651F_2550, 0x38, 0x38);
    Next(0x651F_2550, 0x340B_C6D9, 0x39, 0x39);
    ThreeBytes(Register(0xF68D_2C9E), 0x37, 0x38, 0x39);
  }

  const CHECK: seq<byte> := [0x31, 0x32, 0x33, 0x34, 0x35, 0x36, 0x37, 0x38, 0x39]

  /** The checksum of the nine digits, "123456789". */
  lemma CrcOfDigits()
    ensures Crc(CHECK, 0) == 0xCBF4_3926
  {
    hide Update, RegisterOf, BitsOf, ValueOf;
    StartIs();
    FirstThree();
    NextThree();
    LastThree();
    var start, a, b, c := Register(0xFFFF_FFFF), CHECK[..3], CHECK[3..6], CHECK[6..];
    UpdateAppend(start, a, b);
    UpdateAppend(start, a + b, c);
    assert CHECK == a + b + c && a == [0x31, 0x32, 0x33] && b == [0x34, 0x35, 0x36] && c == [0x37, 0x38, 0x39];
    NotIs(0x340B_C6D9);
    CheckIs();
    ValueIs(0xCBF4_3926, 0xCBF4_3926);
  }

  // --- the residue --------------------------------------------------------------------------------------

  lemma {:induction false} BitOfInput(data: seq<byte>, i: nat)
    requires i < 8 * |data|
    ensures InputBits(data)[i] == (ByteStringBit(data, i) == 1)
    decreases |data|
  {
    hide BitOf;
    if i >= 8 {
      BitOfInput(data[1..], i - 8);
      assert data[1..][(i - 8) / 8] == data[i / 8] && (i - 8) % 8 == i % 8;
    }
  }

  /** A word that is packed little-endian enters the register as its bits. */
  lemma InputOfWord(n: nat)
    requires n < U32_LIMIT
    ensures InputBits(PackLE(n, 4)) == BitsOf(n, 32)
  {
    hide BitOf, PackLE, ReadLE, InputBits, ByteStringBit;
    WordFits(n);
    forall i: nat | i < 32 ensures InputBits(PackLE(n, 4))[i] == BitsOf(n, 32)[i] {
      BitOfInput(PackLE(n, 4), i);
      BitOfReadLE(PackLE(n, 4), i);
    }
  }

  lemma OnesShifted()
    ensures Shifts(Register(0xFFFF_FFFF), 32) == Register(0xDEBB_20E3)
  {
    hide RegisterOf, Shifts;
    StepsOfEight(0xFFFF_FFFF);
    StepsOfEight(0x2DFD_1072);
    StepsOfEight(0xBE26_ED00);
    StepsOfEight(0xBE_26ED);
    ShiftsAdd(Register(0xFFFF_FFFF), 8, 8);
    ShiftsAdd(Register(0xFFFF_FFFF), 16, 8);
    ShiftsAdd(Register(0xFFFF_FFFF), 24, 8);
  }

  /** Behind its own checksum, every message has the same checksum. */
  lemma ResidueLaw(data: seq<byte>)
    ensures Crc(data + PackLE(Crc(data, 0), 4), 0) == 0x2144_DF1C
  {
    hide Update, RegisterOf, BitsOf, ValueOf, InputBits, Shifts, PackLE;
    var n, start := Crc(data, 0), Not(BitsOf(0, 32));
    var w := Update(start, data);
    CrcBound(data, 0);
    BitsOfValue(Not(w));
    InputOfWord(n);
    UpdateAtOnce(w, PackLE(n, 4));
    UpdateAppend(start, data, PackLE(n, 4));
    assert Not(w) + Zeroes(0) == Not(w) && Xor(w, Not(w)) == Not(Zeroes(32));
    StartIs();
    OnesShifted();
    NotIs(0xDEBB_20E3);
    ResidueIs();
    ValueIs(0x2144_DF1C, 0x2144_DF1C);
  }
}
