/** The bit-list codecs of ed25519.py: integers as little-endian bit lists packed eight to a byte. */
module BitCodec {
  import opened Bytes
  import opened ModularArithmetic

  type bit = n: int | 0 <= n < 2

  function Pow2(n: nat): (r: int)
    ensures r > 0
  {
    if n == 0 then 1 else 2 * Pow2(n - 1)
  }

  /** (y >> i) & 1 */
  function BitOf(y: int, i: nat): bit {
    y / Pow2(i) % 2
  }

  /** [(y >> i) & 1 for i in range(n)] */
  function BitList(y: int, n: nat): seq<bit> {
    seq(n, i requires 0 <= i < n => BitOf(y, i))
  }

  /** sum([bits[j] << j for j in range(n)]) */
  function BitSum(bits: seq<bit>, n: nat): nat
    requires n <= |bits|
  {
    if n == 0 then 0 else
      var b: int := bits[n - 1];
      BitSum(bits, n - 1) + Pow2(n - 1) * b
  }

  function PackBytes(bits: seq<bit>): (s: seq<byte>)
    requires |bits| % 8 == 0
    ensures |s| == |bits| / 8
  {
    seq(|bits| / 8, i requires 0 <= i < |bits| / 8 => PackByte(bits[8 * i..8 * i + 8]))
  }

  function PackByte(bits: seq<bit>): byte
    requires |bits| == 8
  {
    BitSumBound(bits, 8);
    PowersOfTwo();
    BitSum(bits, 8)
  }

  lemma PowersOfTwo()
    ensures Pow2(8) == 256
  {
    assert Pow2(4) == 16;
  }

  /** bit(h, i) */
  function ByteStringBit(h: seq<byte>, i: nat): bit
    requires i < 8 * |h|
  {
    BitOf(h[i / 8], i % 8)
  }

  /** sum(2**i * bit(h, i) for i in range(lo, hi)) */
  function SumBits(h: seq<byte>, lo: nat, hi: nat): nat
    requires lo <= hi <= 8 * |h|
  {
    if lo == hi then 0 else
      var b: int := ByteStringBit(h, hi - 1);
      SumBits(h, lo, hi - 1) + Pow2(hi - 1) * b
  }

  // --- sums of bits ---------------------------------------------------------------------------------

  lemma DivModUnique(n: int, m: int, k: int, r: int)
    requires m > 0 && 0 <= r < m && n == k * m + r
    ensures n / m == k && n % m == r
  {
    ModOfSum(m, r, k);
    assert (n / m - k) * m == 0 by { assert n == (n / m) * m + n % m; }
  }

  /** One more bit: y mod 2^(n+1) is y mod 2^n plus bit n. */
  lemma ResidueStep(y: int, n: nat)
    ensures y % Pow2(n + 1) == y % Pow2(n) + Pow2(n) * BitOf(y, n) as int
  {
    var m, k := Pow2(n), y / Pow2(n);
    assert y == k * m + y % m;
    assert k == 2 * (k / 2) + k % 2;
    assert k * m == (k / 2) * (2 * m) + (k % 2) * m by {
      assert (2 * (k / 2) + k % 2) * m == (k / 2) * (2 * m) + (k % 2) * m;
    }
    assert 0 <= (k % 2) * m <= m;
    DivModUnique(y, 2 * m, k / 2, y % m + (k % 2) * m);
  }

  /** Summing the first n bits of y gives y mod 2^n. */
  lemma {:induction false} BitSumOfBits(y: int, bits: seq<bit>, n: nat)
    requires n <= |bits| && forall i: nat | i < n :: bits[i] == BitOf(y, i)
    ensures BitSum(bits, n) == y % Pow2(n)
  {
    if n > 0 {
      BitSumOfBits(y, bits, n - 1);
      ResidueStep(y, n - 1);
    }
  }

  lemma {:induction false} BitSumBound(bits: seq<bit>, n: nat)
    requires n <= |bits|
    ensures BitSum(bits, n) < Pow2(n)
  {
    if n > 0 {
      BitSumBound(bits, n - 1);
      var b: int := bits[n - 1];
      assert b == 0 || b == 1;
    }
  }

  lemma {:induction false} Pow2Add(m: nat, n: nat)
    ensures Pow2(m + n) == Pow2(m) * Pow2(n)
  {
    if m > 0 {
      Pow2Add(m - 1, n);
      assert 2 * (Pow2(m - 1) * Pow2(n)) == (2 * Pow2(m - 1)) * Pow2(n);
    }
  }

  lemma EvenMultiple(n: int, s: int, m: int, t: int)
    requires m > 0 && n == s + (2 * t) * m
    ensures n / m % 2 == s / m % 2
  {
    assert (s / m + 2 * t) * m == s / m * m + (2 * t) * m;
    DivModUnique(n, m, s / m + 2 * t, s % m);
  }

  lemma Regroup(p: int, m: int, k: int, b: int)
    requires p == m * (2 * k)
    ensures p * b == (2 * (b * k)) * m
  {}

  /** Adding a multiple of 2^n does not touch bit i below n. */
  lemma HighBit(s: nat, n: nat, b: int, i: nat)
    requires i < n
    ensures BitOf(s + Pow2(n) * b, i) == BitOf(s, i)
  {
    var p, m, k := Pow2(n), Pow2(i), Pow2(n - i - 1);
    Pow2Add(i, n - i);
    Regroup(p, m, k, b);
    EvenMultiple(s + p * b, s, m, b * k);
  }

  lemma TopBit(s: nat, n: nat, b: bit)
    requires s < Pow2(n)
    ensures BitOf(s + Pow2(n) * b, n) == b
  {
    var p, c: int := Pow2(n), b;
    hide Pow2;
    assert p * c == c * p;
    DivModUnique(s + p * c, p, c, s);
  }

  /** The bits of a sum of bits are the bits summed. */
  lemma {:induction false} BitsOfBitSum(bits: seq<bit>, n: nat, i: nat)
    requires i < n <= |bits|
    ensures BitOf(BitSum(bits, n), i) == bits[i]
  {
    var s, b := BitSum(bits, n - 1), bits[n - 1];
    if i < n - 1 {
      BitsOfBitSum(bits, n - 1, i);
      hide BitOf, Pow2;
      HighBit(s, n - 1, b, i);
    } else {
      BitSumBound(bits, n - 1);
      hide BitOf, Pow2;
      TopBit(s, n - 1, b);
    }
  }

  // --- byte strings ---------------------------------------------------------------------------------

  /** Every packed bit reads back. */
  lemma PackedBit(bits: seq<bit>, i: nat)
    requires |bits| % 8 == 0 && i < |bits|
    ensures ByteStringBit(PackBytes(bits), i) == bits[i]
  {
    BitsOfBitSum(bits[8 * (i / 8)..8 * (i / 8) + 8], 8, i % 8);
  }

  /** Packing the bits of a byte string gives the byte string. */
  lemma PackOwnBits(s: seq<byte>, bits: seq<bit>)
    requires |bits| == 8 * |s| && forall i: nat | i < |bits| :: bits[i] == ByteStringBit(s, i)
    ensures PackBytes(bits) == s
  {
    hide PackByte;
    forall i: nat | i < |s| ensures PackByte(bits[8 * i..8 * i + 8]) == s[i] { PackOwnByte(s, bits, i); }
  }

  lemma PackOwnByte(s: seq<byte>, bits: seq<bit>, i: nat)
    requires |bits| == 8 * |s| && i < |s| && forall j: nat | j < |bits| :: bits[j] == ByteStringBit(s, j)
    ensures PackByte(bits[8 * i..8 * i + 8]) == s[i]
  {
    hide Pow2, BitOf;
    forall j: nat | j < 8 ensures bits[8 * i..8 * i + 8][j] == BitOf(s[i], j) {
      assert (8 * i + j) / 8 == i && (8 * i + j) % 8 == j;
      assert bits[8 * i + j] == ByteStringBit(s, 8 * i + j);
    }
    PowersOfTwo();
    BitSumOfBits(s[i], bits[8 * i..8 * i + 8], 8);
  }

  function BitsOfString(h: seq<byte>): seq<bit> {
    seq(8 * |h|, i requires 0 <= i < 8 * |h| => ByteStringBit(h, i))
  }

  lemma {:induction false} SumBitsIsBitSum(h: seq<byte>, n: nat)
    requires n <= 8 * |h|
    ensures SumBits(h, 0, n) == BitSum(BitsOfString(h), n)
  {
    if n > 0 {
      SumBitsIsBitSum(h, n - 1);
    }
  }

  /** Reading n bits of a byte string that starts with the bits of y gives y mod 2^n. */
  lemma SumOfBits(y: int, h: seq<byte>, n: nat)
    requires n <= 8 * |h| && forall i: nat | i < n :: ByteStringBit(h, i) == BitOf(y, i)
    ensures SumBits(h, 0, n) == y % Pow2(n)
  {
    SumBitsIsBitSum(h, n);
    BitSumOfBits(y, BitsOfString(h), n);
  }

  /** The integer read from a byte string has the byte string's bits. */
  lemma BitsOfSum(h: seq<byte>, n: nat, i: nat)
    requires i < n <= 8 * |h|
    ensures SumBits(h, 0, n) < Pow2(n)
    ensures BitOf(SumBits(h, 0, n), i) == ByteStringBit(h, i)
  {
    SumBitsIsBitSum(h, n);
    BitSumBound(BitsOfString(h), n);
    BitsOfBitSum(BitsOfString(h), n, i);
  }

  // --- little-endian numbers ------------------------------------------------------------------------

  lemma {:induction false} Pow256IsPow2(n: nat)
    ensures Pow256(n) == Pow2(8 * n)
  {
    if n > 0 {
      Pow256IsPow2(n - 1);
      Pow2Add(8, 8 * (n - 1));
      PowersOfTwo();
    }
  }

  lemma LowBit(low: byte, rest: nat, i: nat)
    requires i < 8
    ensures BitOf(low as int + 256 * rest, i) == BitOf(low, i)
  {
    PowersOfTwo();
    HighBit(low, 8, rest, i);
  }

  lemma UpperBit(low: byte, rest: nat, i: nat)
    requires i >= 8
    ensures BitOf(low as int + 256 * rest, i) == BitOf(rest, i - 8)
  {
    var n, p := low as int + 256 * rest, Pow2(i - 8);
    PowersOfTwo();
    Pow2Add(8, i - 8);
    assert Pow2(i) == 256 * p;
    hide Pow2;
    QuotientOfShifted(low, rest, p);
  }

  lemma QuotientOfShifted(low: byte, rest: nat, p: int)
    requires p > 0
    ensures (low as int + 256 * rest) / (256 * p) == rest / p
  {
    var q, r := rest / p, rest % p;
    assert rest == q * p + r;
    assert low as int + 256 * rest == q * (256 * p) + (low as int + 256 * r);
    DivModUnique(low as int + 256 * rest, 256 * p, q, low as int + 256 * r);
  }

  /** Byte i is the digit of 256^i. */
  lemma {:induction false} ByteOfNumber(s: seq<byte>, i: nat)
    requires i < |s|
    ensures ReadLE(s) / Pow256(i) % 256 == s[i] as int
    decreases |s|
  {
    var low, rest := s[0], ReadLE(s[1..]);
    if i > 0 {
      ByteOfNumber(s[1..], i - 1);
      assert Pow256(i) == 256 * Pow256(i - 1);
      hide Pow256, ReadLE;
      QuotientOfShifted(low, rest, Pow256(i - 1));
    }
  }

  /** The bits of a byte string are those of the little-endian number it holds. */
  lemma {:induction false} BitOfReadLE(h: seq<byte>, i: nat)
    requires i < 8 * |h|
    ensures ByteStringBit(h, i) == BitOf(ReadLE(h), i)
    decreases |h|
  {
    hide BitOf;
    if i < 8 {
      LowBit(h[0], ReadLE(h[1..]), i);
    } else {
      UpperBit(h[0], ReadLE(h[1..]), i);
      BitOfReadLE(h[1..], i - 8);
      assert h[1..][(i - 8) / 8] == h[i / 8] && (i - 8) % 8 == i % 8;
    }
  }

  /** Summing all bits of a byte string gives the little-endian number it holds. */
  lemma SumIsReadLE(h: seq<byte>)
    ensures SumBits(h, 0, 8 * |h|) == ReadLE(h) < Pow2(8 * |h|)
  {
    forall i: nat | i < 8 * |h| ensures ByteStringBit(h, i) == BitOf(ReadLE(h), i) { BitOfReadLE(h, i); }
    SumOfBits(ReadLE(h), h, 8 * |h|);
    PackReadLE(h);
    Pow256IsPow2(|h|);
    hide Pow2, Pow256, ReadLE, ByteStringBit, SumBits;
    SmallResidue(ReadLE(h), Pow2(8 * |h|));
  }

  lemma SmallResidue(n: int, m: int)
    requires 0 <= n < m
    ensures n % m == n
  {}
}
