/** Point encoding, key generation, signing and verification of ed25519.py. */
module Ed25519 {
  import opened Bytes
  import opened BitCodec
  import opened ModularArithmetic
  import opened EdwardsCurve
  import opened EdwardsLaw
  import opened EdwardsGroup
  import opened EdwardsReduction

  /** The module constants q, d, l and B. */
  datatype Scheme = Scheme(curve: Curve, order: int, base: Point)

  /** What the constants are chosen for: a prime below 2^255, a non-square d, an associative law
      and a base point of order l. */
  ghost predicate ValidScheme(sch: Scheme) {
    && ValidGroup(sch.curve)
    && sch.curve.q < Pow2(255)
    && OnCurve(sch.curve, sch.base)
    && 0 < sch.order < Pow2(256)
    && Multiple(sch.curve, sch.base, sch.order) == NEUTRAL
  }

  // --- codecs -------------------------------------------------------------------------------------

  function EncodeInt(y: int): (s: seq<byte>)
    ensures |s| == 32
  {
    PackBytes(BitList(y, 256))
  }

  function DecodeInt(s: seq<byte>): nat
    requires |s| >= 32
  {
    SumBits(s, 0, 256)
  }

  function EncodePoint(p: Point): (s: seq<byte>)
    ensures |s| == 32
  {
    PackBytes(BitList(p.y, 255) + [p.x % 2])
  }

  function DecodePoint(c: Curve, s: seq<byte>): Option<Point>
    requires c.q > 4 && |s| >= 32
  {
    var y := SumBits(s, 0, 255);
    var x := XRecover(c, y);
    var p := Point(if x % 2 != ByteStringBit(s, 255) then c.q - x else x, y);
    if IsOnCurve(c, p) then Some(p) else None
  }

  lemma IntRoundTrip(y: int)
    requires 0 <= y < Pow2(256)
    ensures DecodeInt(EncodeInt(y)) == y
  {
    var bits, s := BitList(y, 256), EncodeInt(y);
    forall i: nat | i < 256 ensures ByteStringBit(s, i) == BitOf(y, i) {
      PackedBit(bits, i);
    }
    hide Pow2, BitOf;
    SumOfBits(y, s, 256);
    SmallResidue(y, Pow2(256));
  }

  /** The bits of an encoded point: 255 bits of y, then the parity of x. */
  lemma EncodedPointBits(p: Point)
    ensures forall i: nat | i < 255 :: ByteStringBit(EncodePoint(p), i) == BitOf(p.y, i)
    ensures ByteStringBit(EncodePoint(p), 255) == p.x % 2
  {
    var bits := BitList(p.y, 255) + [p.x % 2];
    forall i: nat | i < 256 ensures ByteStringBit(EncodePoint(p), i) == bits[i] {
      PackedBit(bits, i);
    }
  }

  // --- decoding a point ---------------------------------------------------------------------------

  /** d y^2 + 1 is not zero: it would make d a square. */
  lemma RecoverDenominator(c: Curve, y: int)
    requires ValidCurve(c)
    ensures !Zero(c.q, c.d * y * y + 1)
  {
    var q, i := c.q, RootOfMinusOne(c.q);
    if Zero(q, c.d * y * y + 1) {
      RootOfMinusOneSquared(q);
      hide Zero;
      if Zero(q, y) {
        ZeroDenominator(q, c.d, y);
      } else {
        ZeroSum(q, i * i + 1, c.d * y * y + 1);
        assert c.d * y * y == c.d * (y * y);
        NotASquareRatio(c, y, i);
      }
    }
  }

  lemma ZeroDenominator(q: int, d: int, y: int)
    requires q > 1 && Zero(q, y)
    ensures !Zero(q, d * y * y + 1)
  {
    ZeroProduct(q, y, d * y);
    SmallZero(q, 1);
    if Zero(q, d * y * y + 1) {
      ZeroSum(q, d * y * y + 1, (d * y) * y);
    }
  }

  /** On the curve, x is a square root of what `xrecover` looks for a square root of. */
  lemma CurveGivesRoot(c: Curve, p: Point)
    requires ValidCurve(c) && IsOnCurve(c, p)
    ensures Zero(c.q, p.x * p.x - RootTarget(c, p.y))
  {
    var q, u := c.q, c.d * p.y * p.y + 1;
    RecoverDenominator(c, p.y);
    InvIsInverse(q, u);
    assert Zero(q, CurveEquation(c, p));
    hide Zero;
    RootQuotient(q, c.d, p.x, p.y, u, Inv(q, u));
  }

  lemma RootQuotient(q: int, d: int, x: int, y: int, u: int, i: int)
    requires q > 0 && u == d * y * y + 1 && Zero(q, u * i - 1)
    requires Zero(q, -x * x + y * y - 1 - d * x * x * y * y)
    ensures Zero(q, x * x - (y * y - 1) * i)
  {
    hide Zero;
    var e, x2, y2 := -x * x + y * y - 1 - d * x * x * y * y, x * x, y * y;
    SolvedForTarget(d, x, y);
    ZeroCombination(q, e, -i, u * i - 1, -x2);
    TargetLeft(u, i, x2, y2 - 1);
  }

  lemma SolvedForTarget(d: int, x: int, y: int)
    ensures -x * x + y * y - 1 - d * x * x * y * y == (y * y - 1) - (d * y * y + 1) * (x * x)
  {}

  lemma TargetLeft(u: int, i: int, x2: int, t: int)
    ensures (t - u * x2) * -i + (u * i - 1) * -x2 == x2 - t * i
  {}

  lemma CurveFacts(c: Curve)
    requires ValidCurve(c)
    ensures Prime(c.q) && c.q % 8 == 5 && c.q % 2 == 1 && c.q > 4
  {}

  lemma XRecoverIsEven(c: Curve, y: int)
    requires c.q > 4 && c.q % 2 == 1
    ensures var x, r := XRecover(c, y), SquareRoot(c.q, RootTarget(c, y));
            x % 2 == 0 && (x == r || (r % 2 == 1 && x == c.q - r))
  {
    hide SquareRoot, RootTarget;
  }

  /** `xrecover` returns the even one of the two roots. */
  lemma XRecoverIsEvenRoot(c: Curve, p: Point)
    requires ValidCurve(c) && OnCurve(c, p)
    ensures var x := XRecover(c, p.y);
            0 <= x < c.q && x % 2 == 0 && (x == p.x || x == c.q - p.x)
  {
    CurveFacts(c);
    hide RootTarget, SquareRoot, XRecover, Zero, IsOnCurve, ValidCurve, Prime;
    XRecoverIsEven(c, p.y);
    CurveGivesRoot(c, p);
    SquareRootFindsRoot(c.q, RootTarget(c, p.y), p.x);
    RootsAreOpposite(c.q, SquareRoot(c.q, RootTarget(c, p.y)), p.x, RootTarget(c, p.y));
  }

  lemma RootSumOrDifference(q: int, r: int, w: int, xx: int)
    requires Prime(q) && Zero(q, r * r - xx) && Zero(q, w * w - xx)
    ensures Zero(q, r - w) || Zero(q, r + w)
  {
    hide Zero;
    ZeroSum(q, r * r - xx, w * w - xx);
    assert (r - w) * (r + w) == (r * r - xx) - (w * w - xx);
    Euclid(q, r - w, r + w);
  }

  lemma SmallMultiple(q: int, n: int)
    requires q > 0 && 0 <= n < 2 * q && Zero(q, n)
    ensures n == 0 || n == q
  {
    assert Zero(q, q) by { ModOfSum(q, 0, 1); assert 1 * q == q; }
    ZeroSum(q, n, q);
    if n > 0 { SmallZero(q, n - q); }
  }

  lemma RootsAreOpposite(q: int, r: int, w: int, xx: int)
    requires Prime(q) && 0 <= r < q && 0 <= w < q && Zero(q, r * r - xx) && Zero(q, w * w - xx)
    ensures r == w || r == q - w
  {
    RootSumOrDifference(q, r, w, xx);
    hide Zero;
    if Zero(q, r - w) {
      SmallZero(q, r - w);
    } else {
      SmallMultiple(q, r + w);
    }
  }

  /** Decoding undoes encoding for every reduced point of the curve. */
  lemma PointRoundTrip(c: Curve, p: Point)
    requires ValidCurve(c) && c.q < Pow2(255) && OnCurve(c, p)
    ensures DecodePoint(c, EncodePoint(p)) == Some(p)
  {
    var s := EncodePoint(p);
    EncodedPointBits(p);
    hide Pow2, BitOf, XRecover, EncodePoint, IsOnCurve, ValidCurve;
    SumOfBits(p.y, s, 255);
    SmallResidue(p.y, Pow2(255));
    XRecoverIsEvenRoot(c, p);
    CurveFacts(c);
  }

  lemma DecodedParity(c: Curve, s: seq<byte>)
    requires c.q > 4 && c.q % 2 == 1 && |s| == 32 && DecodePoint(c, s).Some?
    ensures var p := DecodePoint(c, s).value;
            p.y == SumBits(s, 0, 255) && p.x % 2 == ByteStringBit(s, 255)
  {
    hide IsOnCurve, XRecover, SquareRoot, RootTarget, SumBits, ByteStringBit;
    XRecoverIsEven(c, SumBits(s, 0, 255));
    FlipParity(c.q, XRecover(c, SumBits(s, 0, 255)), ByteStringBit(s, 255));
  }

  lemma FlipParity(q: int, x: int, b: bit)
    requires q % 2 == 1 && x % 2 == 0
    ensures (if x % 2 != b then q - x else x) % 2 == b
  {}

  /** Encoding undoes decoding for every byte string that decodes, also when y is not reduced. */
  lemma DecodedPointEncodes(c: Curve, s: seq<byte>)
    requires c.q > 4 && c.q % 2 == 1 && |s| == 32 && DecodePoint(c, s).Some?
    ensures EncodePoint(DecodePoint(c, s).value) == s
  {
    hide DecodePoint, Pow2, BitOf, SumBits, PackBytes, ByteStringBit;
    var p := DecodePoint(c, s).value;
    var bits := BitList(p.y, 255) + [p.x % 2];
    DecodedParity(c, s);
    forall i: nat | i < 255 ensures bits[i] == ByteStringBit(s, i) {
      BitsOfSum(s, 255, i);
    }
    PackOwnBits(s, bits);
  }

  // --- keys, signatures, verification ---------------------------------------------------------------

  type digest = s: seq<byte> | |s| == 64 witness seq(64, i => 0)

  function SecretScalar(H: seq<byte> -> digest, sk: seq<byte>): nat {
    Pow2(254) + SumBits(H(sk), 3, 254)
  }

  function PublicKey(sch: Scheme, H: seq<byte> -> digest, sk: seq<byte>): seq<byte>
    requires sch.curve.q > 4
  {
    EncodePoint(ScalarMult(sch.curve, sch.base, SecretScalar(H, sk)))
  }

  function Hint(H: seq<byte> -> digest, m: seq<byte>): nat {
    SumBits(H(m), 0, 512)
  }

  function Signature(sch: Scheme, H: seq<byte> -> digest, m: seq<byte>, sk: seq<byte>, pk: seq<byte>): (s: seq<byte>)
    requires sch.curve.q > 4 && sch.order > 0
    ensures |s| == 64
  {
    var h := H(sk);
    var a := SecretScalar(H, sk);
    var r := Hint(H, h[32..64] + m);
    var bigR := ScalarMult(sch.curve, sch.base, r);
    var bigS := (r + Hint(H, EncodePoint(bigR) + pk + m) * a) % sch.order;
    EncodePoint(bigR) + EncodeInt(bigS)
  }

  datatype Verdict = Accepted | BadSignatureLength | BadKeyLength | NotOnCurve | Rejected

  function CheckValid(sch: Scheme, H: seq<byte> -> digest, s: seq<byte>, m: seq<byte>, pk: seq<byte>): Verdict
    requires sch.curve.q > 4
  {
    var c := sch.curve;
    if |s| != 64 then BadSignatureLength
    else if |pk| != 32 then BadKeyLength
    else
      match (DecodePoint(c, s[0..32]), DecodePoint(c, pk))
      case (Some(bigR), Some(bigA)) =>
        var bigS := DecodeInt(s[32..64]);
        var h := Hint(H, EncodePoint(bigR) + pk + m);
        if ScalarMult(c, sch.base, bigS) != Edwards(c, bigR, ScalarMult(c, bigA, h)) then Rejected else Accepted
      case _ => NotOnCurve
  }

  // --- the secret scalar ----------------------------------------------------------------------------

  /** The digest with its lowest three bits cleared, bit 254 set and bit 255 dropped. */
  function ClampedBits(h: seq<byte>): (r: seq<bit>)
    requires |h| >= 32
    ensures |r| == 255
  {
    seq(255, i requires 0 <= i < 255 => if i < 3 then 0 else if i < 254 then ByteStringBit(h, i) else 1)
  }

  lemma {:induction false} SumIsClampedSum(h: seq<byte>, n: nat)
    requires |h| >= 32 && 3 <= n <= 254
    ensures SumBits(h, 3, n) == BitSum(ClampedBits(h), n)
  {
    hide Pow2, ByteStringBit;
    if n > 3 {
      SumIsClampedSum(h, n - 1);
    } else {
      var bits := ClampedBits(h);
      assert BitSum(bits, 0) == 0 && BitSum(bits, 1) == 0 && BitSum(bits, 2) == 0;
    }
  }

  /** The secret scalar has exactly these bits; it is a multiple of 8 between 2^254 and 2^255. */
  lemma SecretScalarIsClamped(H: seq<byte> -> digest, sk: seq<byte>)
    ensures var a := SecretScalar(H, sk);
            && Pow2(254) <= a < Pow2(255) && a % 8 == 0
            && forall i: nat | i < 255 :: BitOf(a, i) == ClampedBits(H(sk))[i]
  {
    var a, bits := SecretScalar(H, sk), ClampedBits(H(sk));
    SumIsClampedSum(H(sk), 254);
    assert Pow2(3) == 8;
    hide Pow2, BitOf, ClampedBits, SumBits;
    ScalarIsSum(H, sk);
    BitSumBound(bits, 255);
    forall i: nat | i < 255 ensures BitOf(a, i) == bits[i] { BitsOfBitSum(bits, 255, i); }
    BitSumOfBits(a, bits, 3);
    LowBitsClear(H(sk));
  }

  lemma ScalarIsSum(H: seq<byte> -> digest, sk: seq<byte>)
    ensures SecretScalar(H, sk) == BitSum(ClampedBits(H(sk)), 255) >= Pow2(254)
  {
    SumIsClampedSum(H(sk), 254);
    hide Pow2, SumBits;
  }

  lemma LowBitsClear(h: seq<byte>)
    requires |h| >= 32
    ensures BitSum(ClampedBits(h), 3) == 0
  {
    hide Pow2;
    var bits := ClampedBits(h);
    assert BitSum(bits, 1) == 0 && BitSum(bits, 2) == 0;
  }

  /** (r + h a) mod l times B is r B plus h times a B. */
  lemma SignatureEquation(sch: Scheme, r: nat, h: nat, a: nat)
    requires ValidScheme(sch)
    ensures var c, b := sch.curve, sch.base;
            var s := (r + h * a) % sch.order;
            s >= 0 && ScalarMult(c, b, s) == Edwards(c, ScalarMult(c, b, r), ScalarMult(c, ScalarMult(c, b, a), h))
  {
    var c, b := sch.curve, sch.base;
    hide Edwards, OnCurve, ScalarMult, Pow2;
    assert h * a >= 0;
    var s := (r + h * a) % sch.order;
    ScalarMultIsMultiple(c, b, s);
    ScalarMultIsMultiple(c, b, r);
    ScalarMultIsMultiple(c, b, a);
    MultipleOnCurve(c, b, a);
    ScalarMultIsMultiple(c, Multiple(c, b, a), h);
    MultipleModOrder(c, b, sch.order, r + h * a);
    MultipleAdd(c, b, r, h * a);
    MultipleOfMultiple(c, b, a, h);
    assert a * h == h * a;
  }

  lemma ScalarMultRoundTrip(sch: Scheme, e: nat)
    requires ValidScheme(sch)
    ensures DecodePoint(sch.curve, EncodePoint(ScalarMult(sch.curve, sch.base, e)))
            == Some(ScalarMult(sch.curve, sch.base, e))
  {
    hide Edwards, OnCurve, ScalarMult, Pow2, DecodePoint, EncodePoint;
    ScalarMultIsMultiple(sch.curve, sch.base, e);
    MultipleOnCurve(sch.curve, sch.base, e);
    PointRoundTrip(sch.curve, ScalarMult(sch.curve, sch.base, e));
  }

  /** Signing is complete: verification accepts every signature made with the matching public key. */
  lemma SigningIsComplete(sch: Scheme, H: seq<byte> -> digest, m: seq<byte>, sk: seq<byte>)
    requires ValidScheme(sch)
    ensures var pk := PublicKey(sch, H, sk);
            CheckValid(sch, H, Signature(sch, H, m, sk, pk), m, pk) == Accepted
  {
    var pk := PublicKey(sch, H, sk);
    var a, r := SecretScalar(H, sk), Hint(H, H(sk)[32..64] + m);
    var bigR := ScalarMult(sch.curve, sch.base, r);
    var h := Hint(H, EncodePoint(bigR) + pk + m);
    var bigS := (r + h * a) % sch.order;
    var s := Signature(sch, H, m, sk, pk);
    assert s[0..32] == EncodePoint(bigR) && s[32..64] == EncodeInt(bigS);
    hide Edwards, OnCurve, ScalarMult, Pow2, DecodePoint, EncodePoint, EncodeInt, DecodeInt, Hint, SecretScalar;
    SchemeFacts(sch);
    ScalarMultRoundTrip(sch, r);
    ScalarMultRoundTrip(sch, a);
    IntRoundTrip(bigS);
    SignatureEquation(sch, r, h, a);
  }

  lemma SchemeFacts(sch: Scheme)
    requires ValidScheme(sch)
    ensures sch.curve.q > 4 && 0 < sch.order < Pow2(256)
  {
    hide Pow2;
  }

  // --- what a signature is made of ------------------------------------------------------------------

  /** An encoded integer is little-endian. */
  lemma EncodedIntIsLE(y: nat)
    requires y < Pow2(256)
    ensures EncodeInt(y) == PackLE(y, 32)
  {
    hide Pow2, PackLE, ReadLE;
    IntRoundTrip(y);
    SumIsReadLE(EncodeInt(y));
    PackReadLE(EncodeInt(y));
  }

  lemma DecodedIntIsLE(s: seq<byte>)
    requires |s| == 32
    ensures DecodeInt(s) == ReadLE(s)
  {
    SumIsReadLE(s);
  }

  /** An encoded point is y and, in the highest bit, the parity of x. */
  lemma EncodedPointIsLE(p: Point)
    requires 0 <= p.y < Pow2(255)
    ensures EncodePoint(p) == PackLE(p.y + Pow2(255) * (p.x % 2), 32)
  {
    hide Pow2, PackLE, ReadLE, BitOf, ByteStringBit, EncodePoint, SumBits;
    var s := EncodePoint(p);
    EncodedPointBits(p);
    SumOfBits(p.y, s, 255);
    SmallResidue(p.y, Pow2(255));
    LastBit(s);
    SumIsReadLE(s);
    PackReadLE(s);
    hide SumBits;
    assert ReadLE(s) == p.y + Pow2(255) * (p.x % 2);
  }

  lemma LastBit(s: seq<byte>)
    requires |s| == 32
    ensures SumBits(s, 0, 256) == SumBits(s, 0, 255) + Pow2(255) * (ByteStringBit(s, 255) as int)
  {
    hide Pow2, ByteStringBit;
  }

  /** The hash as a number. */
  lemma HintIsLE(H: seq<byte> -> digest, m: seq<byte>)
    ensures Hint(H, m) == ReadLE(H(m)) < Pow2(512)
    ensures forall i: nat :: i < 512 ==> BitOf(Hint(H, m), i) == ByteStringBit(H(m), i)
  {
    hide Pow2, ReadLE, BitOf, ByteStringBit, SumBits;
    SumIsReadLE(H(m));
    forall i: nat | i < 512 ensures BitOf(Hint(H, m), i) == ByteStringBit(H(m), i) { BitsOfSum(H(m), 512, i); }
  }

  /** A number with the 512 bits of the hash. */
  ghost predicate IsHash(H: seq<byte> -> digest, m: seq<byte>, n: nat) {
    n < Pow2(512) && n == ReadLE(H(m)) && forall i: nat :: i < 512 ==> BitOf(n, i) == ByteStringBit(H(m), i)
  }

  /** The scalar with bits 3 to 253 of the hashed secret, bit 254 set and no others. */
  ghost predicate IsScalar(H: seq<byte> -> digest, sk: seq<byte>, a: nat) {
    && a < Pow2(255)
    && forall i: nat :: i < 255 ==> BitOf(a, i) == if i < 3 then 0 else if i < 254 then ByteStringBit(H(sk), i) else 1
  }

  /** The public key is the encoded multiple of the base point by the scalar. */
  lemma PublicKeyIsMade(sch: Scheme, H: seq<byte> -> digest, sk: seq<byte>) returns (a: nat)
    requires ValidScheme(sch)
    ensures IsScalar(H, sk, a)
    ensures PublicKey(sch, H, sk) == EncodePoint(Multiple(sch.curve, sch.base, a))
  {
    hide Pow2, BitOf, ByteStringBit, SecretScalar, ScalarMult;
    a := SecretScalar(H, sk);
    SecretScalarIsClamped(H, sk);
    SchemeFacts(sch);
    ScalarMultIsMultiple(sch.curve, sch.base, a);
  }

  /** A signature is R and S: R is r times the base point, for the hash r of the second half of the hashed secret
      and the message, and S is r + k a modulo the order, for the hash k of R, key and message. */
  lemma SignatureIsMade(sch: Scheme, H: seq<byte> -> digest, m: seq<byte>, sk: seq<byte>, pk: seq<byte>)
    returns (r: nat, k: nat, a: nat)
    requires ValidScheme(sch)
    ensures IsScalar(H, sk, a) && IsHash(H, H(sk)[32..64] + m, r)
    ensures var s := Signature(sch, H, m, sk, pk);
            && IsHash(H, s[0..32] + pk + m, k)
            && s[0..32] == EncodePoint(Multiple(sch.curve, sch.base, r))
            && s[32..64] == PackLE((r + k * a) % sch.order, 32) && DecodeInt(s[32..64]) == (r + k * a) % sch.order
  {
    hide Pow2, BitOf, ByteStringBit, ReadLE, SecretScalar, Hint, Signature, PackLE, EncodeInt, EncodePoint, DecodeInt;
    hide ScalarMult;
    r, k, a := SignatureParts(sch, H, m, sk, pk);
    HintIsLE(H, H(sk)[32..64] + m);
    HintIsLE(H, Signature(sch, H, m, sk, pk)[0..32] + pk + m);
    SecretScalarIsClamped(H, sk);
    SchemeFacts(sch);
    ScalarMultIsMultiple(sch.curve, sch.base, r);
    EncodedResidue(r + k * a, sch.order);
  }

  lemma SignatureParts(sch: Scheme, H: seq<byte> -> digest, m: seq<byte>, sk: seq<byte>, pk: seq<byte>)
    returns (r: nat, k: nat, a: nat)
    requires sch.curve.q > 4 && sch.order > 0
    ensures a == SecretScalar(H, sk) && r == Hint(H, H(sk)[32..64] + m)
    ensures var s := Signature(sch, H, m, sk, pk);
            && k == Hint(H, s[0..32] + pk + m)
            && s[0..32] == EncodePoint(ScalarMult(sch.curve, sch.base, r))
            && s[32..64] == EncodeInt((r + k * a) % sch.order)
  {
    hide SecretScalar, ScalarMult, Hint, EncodePoint, EncodeInt;
    a, r := SecretScalar(H, sk), Hint(H, H(sk)[32..64] + m);
    k := Hint(H, EncodePoint(ScalarMult(sch.curve, sch.base, r)) + pk + m);
  }

  lemma EncodedResidue(n: int, l: int)
    requires 0 < l < Pow2(256)
    ensures 0 <= n % l && EncodeInt(n % l) == PackLE(n % l, 32) && DecodeInt(EncodeInt(n % l)) == n % l
  {
    hide Pow2, PackLE, EncodeInt, DecodeInt;
    IntRoundTrip(n % l);
    EncodedIntIsLE(n % l);
  }

  // --- what verification accepts ------------------------------------------------------------------

  /** Verification accepts exactly if both lengths are right, both points decode, and the signature equation holds on
      the bytes as they came: decoding and encoding R again does not change what is hashed, and the multiple of the
      key is repeated addition of the reduced key. */
  lemma AcceptedExactly(sch: Scheme, H: seq<byte> -> digest, s: seq<byte>, m: seq<byte>, pk: seq<byte>)
    requires ValidScheme(sch)
    ensures var c := sch.curve;
            CheckValid(sch, H, s, m, pk) == Accepted
            <==> && |s| == 64 && |pk| == 32
                 && DecodePoint(c, s[0..32]).Some? && DecodePoint(c, pk).Some?
                 && Multiple(c, sch.base, ReadLE(s[32..64]))
                    == Edwards(c, DecodePoint(c, s[0..32]).value,
                               Multiple(c, Reduced(c, DecodePoint(c, pk).value), ReadLE(H(s[0..32] + pk + m))))
  {
    hide Edwards, ScalarMult, Multiple, Pow2, DecodePoint, DecodeInt, EncodePoint, Hint, ReadLE, Prime, Zero;
    var c := sch.curve;
    SchemeFacts(sch);
    CurveFacts(c);
    if |s| == 64 && |pk| == 32 && DecodePoint(c, s[0..32]).Some? && DecodePoint(c, pk).Some? {
      ScalarMultIsMultiple(c, sch.base, DecodeInt(s[32..64]));
      DecodedIntIsLE(s[32..64]);
      DecodedPointEncodes(c, s[0..32]);
      HintIsLE(H, s[0..32] + pk + m);
      MultipleOfKey(c, pk, Hint(H, s[0..32] + pk + m));
    }
  }

  lemma MultipleOfKey(c: Curve, pk: seq<byte>, h: nat)
    requires ValidGroup(c) && c.q > 4 && |pk| == 32 && DecodePoint(c, pk).Some?
    ensures var bigA := DecodePoint(c, pk).value; ScalarMult(c, bigA, h) == Multiple(c, Reduced(c, bigA), h)
  {
    hide Edwards, OnCurve, ScalarMult, DecodePoint;
    var bigA := DecodePoint(c, pk).value;
    DecodedOnCurve(c, pk);
    ReducedOnCurve(c, bigA);
    ScalarMultOfReduced(c, bigA, h);
    ScalarMultIsMultiple(c, Reduced(c, bigA), h);
  }

  lemma DecodedOnCurve(c: Curve, s: seq<byte>)
    requires c.q > 4 && |s| >= 32 && DecodePoint(c, s).Some?
    ensures IsOnCurve(c, DecodePoint(c, s).value)
  {
    hide IsOnCurve;
  }

  // --- points that are not reduced ----------------------------------------------------------------

  lemma SquareRootInRange(q: int, xx: int)
    requires q > 4
    ensures 0 <= SquareRoot(q, xx) < q
  {
    ExpModIsPower(xx, (q + 3) / 8, q);
    hide ExpMod, Pow, RootOfMinusOne;
  }

  lemma XRecoverInRange(c: Curve, y: int)
    requires ValidCurve(c)
    ensures 0 <= XRecover(c, y) < c.q && XRecover(c, y) % 2 == 0
  {
    hide RootTarget, SquareRoot, ValidCurve, XRecover;
    CurveFacts(c);
    SquareRootInRange(c.q, RootTarget(c, y));
    XRecoverIsEven(c, y);
  }

  /** A decoded point is reduced exactly if its y is below q, and its sign bit is not set when its x is zero. */
  lemma ReducedExactly(c: Curve, s: seq<byte>)
    requires ValidCurve(c) && |s| >= 32 && DecodePoint(c, s).Some?
    ensures OnCurve(c, DecodePoint(c, s).value)
            <==> SumBits(s, 0, 255) < c.q && !(ByteStringBit(s, 255) == 1 && XRecover(c, SumBits(s, 0, 255)) == 0)
  {
    XRecoverInRange(c, SumBits(s, 0, 255));
    CurveFacts(c);
    DecodedOnCurve(c, s);
    hide XRecover, SumBits, ByteStringBit, IsOnCurve, ValidCurve;
  }

  /** The encoding of y = 1 with the sign bit set. */
  const SIGNED_ONE: seq<byte> := [1] + Zeroed(30) + [0x80]

  lemma SignedOneBits(i: nat)
    requires i < 256
    ensures ByteStringBit(SIGNED_ONE, i) == if i == 0 || i == 255 then 1 else 0
  {
    if i < 8 {
      assert SIGNED_ONE[i / 8] == 1;
      BitOfPower(0, i);
    } else if i >= 248 {
      assert SIGNED_ONE[i / 8] == 0x80;
      assert Pow2(7) == 0x80;
      BitOfPower(7, i - 248);
    } else {
      assert SIGNED_ONE[i / 8] == 0;
      DivModUnique(0, Pow2(i % 8), 0, 0);
    }
  }

  lemma BitOfPower(k: nat, i: nat)
    ensures BitOf(Pow2(k), i) == if i == k then 1 else 0
  {
    if i <= k {
      Pow2Add(i, k - i);
      DivModUnique(Pow2(k), Pow2(i), Pow2(k - i), 0);
      if i < k { assert Pow2(k - i) == 2 * Pow2(k - i - 1); }
    } else {
      Pow2Add(k + 1, i - k - 1);
      var p, e := Pow2(k), Pow2(i - k - 1);
      hide Pow2;
      assert Pow2(i) >= 2 * p by { LargerPower(k, i); }
      DivModUnique(p, Pow2(i), 0, p);
    }
  }

  lemma {:induction false} LargerPower(k: nat, i: nat)
    requires k < i
    ensures Pow2(i) >= 2 * Pow2(k)
    decreases i
  {
    if k + 1 < i { LargerPower(k, i - 1); }
  }

  /** It decodes on every curve, to (q, 1), which is not reduced. */
  lemma UnreducedPoint(c: Curve)
    requires ValidCurve(c) && c.q < Pow2(255)
    ensures DecodePoint(c, SIGNED_ONE) == Some(Point(c.q, 1)) && !OnCurve(c, Point(c.q, 1))
  {
    forall i: nat | i < 255 ensures ByteStringBit(SIGNED_ONE, i) == BitOf(1, i) {
      SignedOneBits(i);
      assert Pow2(0) == 1;
      BitOfPower(0, i);
    }
    SignedOneBits(255);
    SumOfBits(1, SIGNED_ONE, 255);
    CurveFacts(c);
    SmallResidue(1, Pow2(255));
    hide Pow2, BitOf, ByteStringBit, SumBits, XRecover, SIGNED_ONE, Zero, ValidCurve;
    NothingToRecover(c);
    OnCurveAtQ(c);
  }

  lemma PowerOfNothing(n: nat)
    requires n > 0
    ensures Pow(0, n) == 0
  {}

  lemma RootOfNothing(q: int, n: nat)
    requires q > 1 && n > 0
    ensures ExpMod(0, n, q) == 0
  {
    hide ExpMod, Pow;
    ExpModIsPower(0, n, q);
    PowerOfNothing(n);
  }

  lemma NoTarget(c: Curve)
    requires c.q >= 5
    ensures RootTarget(c, 1) == 0
  {
    hide Inv;
  }

  lemma NoRoot(q: int)
    requires q >= 5
    ensures SquareRoot(q, 0) == 0
  {
    hide ExpMod, RootOfMinusOne;
    RootOfNothing(q, (q + 3) / 8);
  }

  lemma NothingToRecover(c: Curve)
    requires c.q >= 5
    ensures XRecover(c, 1) == 0
  {
    hide RootTarget, SquareRoot;
    NoTarget(c);
    NoRoot(c.q);
  }

  lemma OnCurveAtQ(c: Curve)
    requires c.q > 1
    ensures IsOnCurve(c, Point(c.q, 1))
  {
    var q := c.q;
    assert CurveEquation(c, Point(q, 1)) == q * (-q - c.d * q);
    MultipleIsZero(q, -q - c.d * q);
  }
}
