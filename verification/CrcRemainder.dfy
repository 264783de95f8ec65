/** CRC-32 as polynomial division: the checksum is the inverted remainder of the message polynomial. */
module CrcRemainder {
  import opened Bytes
  import opened BitCodec
  import opened Crc32

  /** x^32 + x^26 + x^23 + x^22 + x^16 + x^12 + x^11 + x^10 + x^8 + x^7 + x^5 + x^4 + x^2 + x + 1, highest term
      first. */
  const GENERATOR_DIGITS := "100000100110000010001110110110111"

  function Generator(): (r: Bits)
    ensures |r| == 33
  {
    seq(33, i requires 0 <= i < 33 => GENERATOR_DIGITS[i] == '1')
  }

  /** The product of a polynomial and the generator, highest terms first. */
  function Times(q: Bits): (r: Bits)
    ensures |r| == |q| + 32
  {
    if q == [] then Zeroes(32) else
      Xor((if q[0] then Generator() else Zeroes(33)) + Zeroes(|q| - 1), [false] + Times(q[1..]))
  }

  /** p is a multiple of the generator plus r. */
  ghost predicate IsRemainder(p: Bits, r: Bits) {
    |p| >= 32 && |r| == 32 && exists q: Bits :: |q| == |p| - 32 && Xor(p, Times(q)) == Zeroes(|q|) + r
  }

  /** The message times x^32, with its first 32 coefficients inverted. */
  function MessagePolynomial(data: seq<byte>): (p: Bits)
    ensures |p| == 8 * |data| + 32
  {
    var p := InputBits(data) + Zeroes(32);
    Not(p[..32]) + p[32..]
  }

  // --- remainders are unique ---------------------------------------------------------------------------

  lemma GeneratorSplits()
    ensures Generator() == [true] + POLYNOMIAL
  {
    forall i | 0 <= i < 33 ensures Generator()[i] == ([true] + POLYNOMIAL)[i] { GeneratorAt(i); }
  }

  lemma GeneratorAt(i: nat)
    requires i < 33
    ensures Generator()[i] == if i == 0 then true else POLYNOMIAL[i - 1]
  {
    assert i > 0 ==> POLYNOMIAL[i - 1] == (32 - i in {26, 23, 22, 16, 12, 11, 10, 8, 7, 5, 4, 2, 1, 0});
  }

  /** The leading terms of a multiple give the factor. */
  lemma {:induction false} FactorFromFront(a: Bits, b: Bits)
    requires |a| == |b| && Times(a)[..|a|] == Times(b)[..|b|]
    ensures a == b
    decreases |a|
  {
    if a != [] {
      GeneratorSplits();
      hide Generator;
      var g := if a[0] then Generator() else Zeroes(33);
      assert Times(a)[0] == Times(a)[..|a|][0] == Times(b)[..|b|][0] == Times(b)[0];
      assert Times(a)[0] == a[0] && Times(b)[0] == b[0];
      forall i | 0 <= i < |a| - 1 ensures Times(a[1..])[i] == Times(b[1..])[i] {
        assert Times(a)[..|a|][i + 1] == Times(b)[..|b|][i + 1];
      }
      FactorFromFront(a[1..], b[1..]);
    }
  }

  lemma RemainderIsUnique(p: Bits, r: Bits, s: Bits)
    requires IsRemainder(p, r) && IsRemainder(p, s)
    ensures r == s
  {
    hide Times;
    var a: Bits :| |a| == |p| - 32 && Xor(p, Times(a)) == Zeroes(|a|) + r;
    var b: Bits :| |b| == |p| - 32 && Xor(p, Times(b)) == Zeroes(|b|) + s;
    forall i | 0 <= i < |a| ensures Times(a)[i] == Times(b)[i] {
      assert Xor(p, Times(a))[i] == (Zeroes(|a|) + r)[i] && Xor(p, Times(b))[i] == (Zeroes(|b|) + s)[i];
    }
    FactorFromFront(a, b);
    assert r == (Zeroes(|a|) + r)[|a|..] == (Zeroes(|b|) + s)[|b|..] == s;
  }

  // --- long division -----------------------------------------------------------------------------------

  /** The register w, with the remaining terms brought in at its low end. */
  function Divided(w: Bits, rest: Bits): (r: Bits)
    requires |w| == 32
    ensures |r| == 32
    decreases |rest|
  {
    if rest == [] then w else Divided(Xor(Shift(w), Zeroes(31) + [rest[0]]), rest[1..])
  }

  lemma {:induction false} DivisionLeavesRemainder(w: Bits, rest: Bits) returns (q: Bits)
    requires |w| == 32
    ensures |q| == |rest| && Xor(w + rest, Times(q)) == Zeroes(|q|) + Divided(w, rest)
    decreases |rest|
  {
    if rest == [] {
      q := [];
      assert Xor(w + [], Zeroes(32)) == w && Zeroes(0) + w == w;
    } else {
      var next := Xor(Shift(w), Zeroes(31) + [rest[0]]);
      var tail := DivisionLeavesRemainder(next, rest[1..]);
      q := [w[0]] + tail;
      assert q[1..] == tail;
      DivisionStep(w, rest, q);
      assert Zeroes(|q|) + Divided(w, rest) == [false] + (Zeroes(|tail|) + Divided(next, rest[1..]));
    }
  }

  lemma DivisionStep(w: Bits, rest: Bits, q: Bits)
    requires |w| == 32 && rest != [] && |q| == |rest| && q[0] == w[0]
    ensures var next := Xor(Shift(w), Zeroes(31) + [rest[0]]);
            Xor(w + rest, Times(q)) == [false] + Xor(next + rest[1..], Times(q[1..]))
  {
    hide Times, Terms, Shift, Xor, Generator, Zeroes;
    UnfoldTimes(q);
    forall i | 0 <= i < |w| + |rest|
      ensures Xor(w + rest, Times(q))[i]
           == ([false] + Xor(Xor(Shift(w), Zeroes(31) + [rest[0]]) + rest[1..], Times(q[1..])))[i]
    {
      DivisionAt(w, rest, Times(q[1..]), i);
    }
  }

  lemma ShiftAt(w: Bits, i: nat)
    requires |w| == 32 && i < 32
    ensures Shift(w)[i] == ((i < 31 && w[i + 1]) != (w[0] && POLYNOMIAL[i]))
  {
    hide Terms;
  }

  lemma DivisionAt(w: Bits, rest: Bits, t: Bits, i: nat)
    requires |w| == 32 && rest != [] && |t| == |rest| + 31 && i < 32 + |rest|
    ensures var next := Xor(Shift(w), Zeroes(31) + [rest[0]]);
            var first := (if w[0] then Generator() else Zeroes(33)) + Zeroes(|rest| - 1);
            Xor(w + rest, Xor(first, [false] + t))[i] == ([false] + Xor(next + rest[1..], t))[i]
  {
    GeneratorSplits();
    hide Generator, Terms, Shift;
    if 0 < i <= 32 { ShiftAt(w, i - 1); }
  }

  lemma UnfoldTimes(q: Bits)
    requires q != []
    ensures Times(q) == Xor((if q[0] then Generator() else Zeroes(33)) + Zeroes(|q| - 1), [false] + Times(q[1..]))
  {}

  // --- the register divides ----------------------------------------------------------------------------

  /** The input bits brought in one by one at the high end of the register. */
  function Fed(w: Bits, input: Bits): (r: Bits)
    requires |w| == 32
    ensures |r| == 32
    decreases |input|
  {
    if input == [] then w else Fed(Shift(Xor(w, [input[0]] + Zeroes(31))), input[1..])
  }

  lemma {:induction false} FedAppend(w: Bits, a: Bits, b: Bits)
    requires |w| == 32
    ensures Fed(w, a + b) == Fed(Fed(w, a), b)
    decreases |a|
  {
    hide Shift;
    if a == [] {
      assert a + b == b;
    } else {
      assert (a + b)[1..] == a[1..] + b;
      FedAppend(Shift(Xor(w, [a[0]] + Zeroes(31))), a[1..], b);
    }
  }

  /** Bits that are brought in at once enter one by one. */
  lemma {:induction false} ShiftsAreFed(w: Bits, input: Bits)
    requires |w| == 32 && |input| <= 32
    ensures Shifts(Xor(w, input + Zeroes(32 - |input|)), |input|) == Fed(w, input)
    decreases |input|
  {
    hide Shift, Terms;
    if input == [] {
      assert [] + Zeroes(32) == Zeroes(32);
      NothingToAdd(w);
    } else {
      var x, y := Xor(w, [input[0]] + Zeroes(31)), input[1..] + Zeroes(32 - |input|);
      assert Xor(w, input + Zeroes(32 - |input|)) == Xor(x, [false] + y);
      ShiftDelays(x, y);
      assert y + [false] == input[1..] + Zeroes(32 - |input[1..]|);
      ShiftsAreFed(Shift(x), input[1..]);
    }
  }

  lemma {:induction false} UpdateIsFed(w: Bits, data: seq<byte>)
    requires |w| == 32
    ensures Update(w, data) == Fed(w, InputBits(data))
    decreases |data|
  {
    hide Shifts, Fed, Xor, BitsOf;
    if data == [] {
      FedNothing(w);
    } else {
      ByteFills(data[0]);
      ShiftsAreFed(w, BitsOf(data[0], 8));
      UpdateIsFed(ByteStep(w, data[0]), data[1..]);
      FedAppend(w, BitsOf(data[0], 8), InputBits(data[1..]));
    }
  }

  lemma FedNothing(w: Bits)
    requires |w| == 32
    ensures Fed(w, []) == w
  {}

  /** Bringing in the input at the high end is dividing it, times x^32, with the register added to its front. */
  lemma {:induction false} FedIsDivided(w: Bits, input: Bits)
    requires |w| == 32
    ensures var p := input + Zeroes(32); Fed(w, input) == Divided(Xor(p[..32], w), p[32..])
    decreases |input|
  {
    hide Shift, Terms;
    var p := input + Zeroes(32);
    if input == [] {
      assert p == Zeroes(32) && p[32..] == [] && p[..32] == Zeroes(32);
      assert Xor(Zeroes(32), w) == w;
    } else {
      var x, rest := Xor(w, [input[0]] + Zeroes(31)), input[1..] + Zeroes(32);
      assert p == [input[0]] + rest;
      var y := rest[..31];
      assert Xor(p[..32], w) == Xor(x, [false] + y);
      ShiftDelays(x, y);
      assert Xor(Xor(Shift(x), y + [false]), Zeroes(31) + [p[32]]) == Xor(rest[..32], Shift(x));
      assert p[32..][1..] == rest[32..];
      FedIsDivided(Shift(x), input[1..]);
    }
  }

  // --- the checksum --------------------------------------------------------------------------------------

  /** The checksum is the inverted remainder: bit i of the checksum is the inverse of the coefficient of x^(31 - i). */
  lemma CrcIsRemainder(data: seq<byte>)
    ensures IsRemainder(MessagePolynomial(data), Not(BitsOf(Crc(data, 0), 32)))
  {
    var w := Update(Not(BitsOf(0, 32)), data);
    BitsOfValue(Not(w));
    NotNot(w);
    ZeroBits();
    hide Crc, Update, Times;
    UpdateIsFed(Not(BitsOf(0, 32)), data);
    FedIsDivided(Not(Zeroes(32)), InputBits(data));
    var p := InputBits(data) + Zeroes(32);
    assert Xor(p[..32], Not(Zeroes(32))) == Not(p[..32]);
    var q := DivisionLeavesRemainder(Not(p[..32]), p[32..]);
    assert MessagePolynomial(data) == Not(p[..32]) + p[32..];
  }

  /** Both together: a number below 2^32 is the checksum exactly if its inverse is the remainder. */
  lemma CrcExactly(data: seq<byte>, n: nat)
    requires n < U32_LIMIT
    ensures n == Crc(data, 0) <==> IsRemainder(MessagePolynomial(data), Not(BitsOf(n, 32)))
  {
    CrcIsRemainder(data);
    if IsRemainder(MessagePolynomial(data), Not(BitsOf(n, 32))) {
      RemainderIsUnique(MessagePolynomial(data), Not(BitsOf(n, 32)), Not(BitsOf(Crc(data, 0), 32)));
      CrcBound(data, 0);
      hide Crc, BitsOf;
      NotNot(BitsOf(n, 32));
      NotNot(BitsOf(Crc(data, 0), 32));
      SameBits(n, Crc(data, 0));
    }
  }

  lemma SameBits(m: nat, n: nat)
    requires m < U32_LIMIT && n < U32_LIMIT && BitsOf(m, 32) == BitsOf(n, 32)
    ensures m == n
  {
    PowersOfTwo32();
    forall i: nat | i < 32 ensures BitList(m, 32)[i] == BitOf(n, i) { assert BitsOf(m, 32)[i] == BitsOf(n, 32)[i]; }
    BitSumOfBits(m, BitList(m, 32), 32);
    BitSumOfBits(n, BitList(m, 32), 32);
  }
}
