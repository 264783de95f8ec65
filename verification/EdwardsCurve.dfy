/** The field and curve arithmetic of ed25519.py, over any prime q that leaves 5 modulo 8 and any non-square d. */
module EdwardsCurve {
  import opened ModularArithmetic

  datatype Point = Point(x: int, y: int)

  /** The curve -x^2 + y^2 = 1 + d x^2 y^2 over the integers modulo q. */
  datatype Curve = Curve(q: int, d: int)

  /** z is a square root of n modulo q. */
  ghost predicate IsRoot(q: int, z: int, n: int)
    requires q > 0
  {
    Zero(q, z * z - n)
  }

  ghost predicate NonSquare(q: int, d: int)
    requires q > 0
  {
    forall z: int :: !IsRoot(q, z, d)
  }

  ghost predicate ValidCurve(c: Curve) {
    Prime(c.q) && c.q % 8 == 5 && NonSquare(c.q, c.d)
  }

  // --- exponentiation and inversion ---------------------------------------------------------------

  function ExpMod(b: int, e: nat, m: int): int
    requires m > 0
  {
    if e == 0 then 1 else
      var r := ExpMod(b, e / 2, m);
      var t := r * r % m;
      if e % 2 == 1 then t * b % m else t
  }

  lemma SquareStep(p: int, b: int, m: int)
    requires m > 0
    ensures (p % m) * (p % m) % m == p * p % m
    ensures (p * p % m) * b % m == b * (p * p) % m
  {
    ResidueOfProduct(m, p, p % m);
    ResidueOfProduct(m, p, p);
    ResidueOfProduct(m, p * p, b);
    assert (p * p) * b == b * (p * p);
  }

  lemma PowHalves(b: int, e: nat)
    requires e > 0
    ensures Pow(b, e) == if e % 2 == 1 then b * (Pow(b, e / 2) * Pow(b, e / 2)) else Pow(b, e / 2) * Pow(b, e / 2)
  {
    PowAdd(b, e / 2, e / 2);
    assert e / 2 + e / 2 == if e % 2 == 1 then e - 1 else e;
  }

  /** Square-and-multiply computes the power. */
  lemma {:induction false} ExpModIsPower(b: int, e: nat, m: int)
    requires m > 1
    ensures ExpMod(b, e, m) == Pow(b, e) % m
  {
    if e > 0 {
      ExpModIsPower(b, e / 2, m);
      PowHalves(b, e);
      SquareStep(Pow(b, e / 2), b, m);
    }
  }

  function Inv(q: int, x: int): int
    requires q > 1
  {
    ExpMod(x, q - 2, q)
  }

  /** `inv` inverts everything that q does not divide. */
  lemma InvIsInverse(q: int, x: int)
    requires Prime(q) && !Zero(q, x)
    ensures Zero(q, x * Inv(q, x) - 1)
  {
    var p := Pow(x, q - 2);
    ExpModIsPower(x, q - 2, q);
    Fermat(q, x);
    ResidueDifference(q, p);
    ZeroProduct(q, p % q - p, x);
    assert Pow(x, q - 1) == x * p;
    ZeroSum(q, x * (p % q - p), x * p - 1);
    assert x * (p % q - p) + (x * p - 1) == x * (p % q) - 1;
  }

  /** The module constant I. */
  function RootOfMinusOne(q: int): int
    requires q > 4
  {
    ExpMod(2, (q - 1) / 4, q)
  }

  lemma QuarterPower(q: int)
    requires q % 8 == 5 && q > 0
    ensures var p := Pow(2, (q - 1) / 4); p * p == Pow(2, (q - 1) / 2)
  {
    hide Pow;
    Halves(q, q / 8);
    PowAdd(2, (q - 1) / 4, (q - 1) / 4);
  }

  lemma Halves(q: int, k: int)
    requires q == 8 * k + 5
    ensures (q - 1) / 4 + (q - 1) / 4 == (q - 1) / 2
  {}

  lemma RootOfMinusOneSquared(q: int)
    requires Prime(q) && q % 8 == 5
    ensures Zero(q, RootOfMinusOne(q) * RootOfMinusOne(q) + 1)
  {
    hide Zero, Pow, ExpMod;
    var n := (q - 1) / 4;
    var p := Pow(2, n);
    ExpModIsPower(2, n, q);
    QuarterPower(q);
    TwoIsNonResidue(q);
    ResidueDifference(q, p);
    SquareOfResidue(q, p, p % q);
  }

  lemma SquareOfResidue(q: int, p: int, r: int)
    requires q > 0 && Zero(q, r - p) && Zero(q, p * p + 1)
    ensures Zero(q, r * r + 1)
  {
    hide Zero;
    ZeroCombination(q, r - p, r + p, p * p + 1, 1);
    DifferenceOfSquares(p, r);
  }

  lemma DifferenceOfSquares(p: int, r: int)
    ensures (r - p) * (r + p) + (p * p + 1) * 1 == r * r + 1
  {}

  // --- square roots -------------------------------------------------------------------------------

  function XRecover(c: Curve, y: int): int
    requires c.q > 4
  {
    var x := SquareRoot(c.q, RootTarget(c, y));
    if x % 2 != 0 then c.q - x else x
  }

  /** xx in `xrecover`: what the x coordinate is a square root of. */
  function RootTarget(c: Curve, y: int): int
    requires c.q > 4
  {
    (y * y - 1) * Inv(c.q, c.d * y * y + 1)
  }

  /** The candidate root of `xrecover` before the parity is fixed. */
  function SquareRoot(q: int, xx: int): int
    requires q > 4
  {
    var x := ExpMod(xx, (q + 3) / 8, q);
    if (x * x - xx) % q != 0 then x * RootOfMinusOne(q) % q else x
  }

  /** Euler's criterion, as far as it is needed: the half power of a non-zero residue is 1 or -1. */
  lemma HalfPower(q: int, x: int)
    requires Prime(q) && q % 2 == 1 && !Zero(q, x)
    ensures var h := Pow(x, (q - 1) / 2); Zero(q, h - 1) || Zero(q, h + 1)
  {
    var n := (q - 1) / 2;
    var h := Pow(x, n);
    PowAdd(x, n, n);
    assert n + n == q - 1;
    Fermat(q, x);
    assert (h - 1) * (h + 1) == h * h - 1;
    Euclid(q, h - 1, h + 1);
  }

  /** Squaring xx^((q+3)/8) gives xx times the half power of a root of xx. */
  lemma CandidateSquare(q: int, w: int)
    requires Prime(q) && q % 8 == 5
    ensures var t := Pow(w * w, (q + 3) / 8); t * t == w * w * Pow(w, (q - 1) / 2)
  {
    var k := (q + 3) / 8;
    PowAdd(w * w, k, k);
    assert Pow(w, 2) == w * w by { assert Pow(w, 2) == w * Pow(w, 1) == w * (w * Pow(w, 0)); }
    PowMul(w, 2, k + k);
    assert 2 * (k + k) == 2 + (q - 1) / 2;
    PowAdd(w, 2, (q - 1) / 2);
  }

  lemma RootSign(q: int, t2: int, p2: int, xw: int, xx: int, h: int)
    requires q > 0 && Zero(q, t2 - p2) && p2 == xw * h && Zero(q, xw - xx)
    requires Zero(q, h - 1) || Zero(q, h + 1)
    ensures Zero(q, t2 - xx) || Zero(q, t2 + xx)
  {
    hide Zero;
    if Zero(q, h - 1) {
      ZeroCombination(q, h - 1, xw, xw - xx, 1);
      assert (h - 1) * xw + (xw - xx) * 1 == p2 - xx;
      ZeroSum(q, t2 - p2, p2 - xx);
    } else {
      ZeroCombination(q, h + 1, xw, xw - xx, -1);
      assert (h + 1) * xw + (xw - xx) * -1 == p2 + xx;
      ZeroSum(q, t2 - p2, p2 + xx);
    }
  }

  /** The candidate t is a root of xx or of -xx whenever xx is a square. */
  lemma CandidateIsRootUpToSign(q: int, xx: int, w: int)
    requires Prime(q) && q % 8 == 5 && Zero(q, w * w - xx)
    ensures var t := ExpMod(xx, (q + 3) / 8, q); Zero(q, t * t - xx) || Zero(q, t * t + xx)
  {
    hide Zero;
    var k := (q + 3) / 8;
    var t, p, h := ExpMod(xx, k, q), Pow(w * w, k), Pow(w, (q - 1) / 2);
    ExpModIsPower(xx, k, q);
    SameResidue(q, w * w, xx);
    PowResidue(q, w * w, xx, k);
    ResidueDifference(q, p);
    SquaresDiffer(q, t, p);
    CandidateSquare(q, w);
    if Zero(q, w) {
      RootOfZero(q, t * t, w, xx, h);
    } else {
      HalfPower(q, w);
      RootSign(q, t * t, p * p, w * w, xx, h);
    }
  }

  lemma SquaresDiffer(q: int, t: int, p: int)
    requires q > 0 && Zero(q, t - p)
    ensures Zero(q, t * t - p * p)
  {
    hide Zero;
    ZeroProduct(q, t - p, t + p);
    assert (t - p) * (t + p) == t * t - p * p;
  }

  lemma RootOfZero(q: int, t2: int, w: int, xx: int, h: int)
    requires q > 0 && Zero(q, w) && Zero(q, t2 - w * w * h) && Zero(q, w * w - xx)
    ensures Zero(q, t2 - xx)
  {
    hide Zero;
    ZeroProduct(q, w, w * h - w);
    assert w * (w * h - w) == w * w * h - w * w;
    ZeroSum(q, t2 - w * w * h, w * w * h - w * w);
    ZeroSum(q, t2 - w * w, w * w - xx);
  }

  /** The root search of `xrecover` succeeds whenever a root exists. */
  lemma SquareRootFindsRoot(q: int, xx: int, w: int)
    requires Prime(q) && q % 8 == 5 && Zero(q, w * w - xx)
    ensures var r := SquareRoot(q, xx); 0 <= r < q && Zero(q, r * r - xx)
  {
    var t, i := ExpMod(xx, (q + 3) / 8, q), RootOfMinusOne(q);
    ExpModIsPower(xx, (q + 3) / 8, q);
    ResidueDifference(q, Pow(xx, (q + 3) / 8));
    CandidateIsRootUpToSign(q, xx, w);
    if !Zero(q, t * t - xx) {
      RootOfMinusOneSquared(q);
      ResidueDifference(q, t * i);
      RotatedRoot(q, t, i, xx, t * i % q);
    }
  }

  lemma RotatedRoot(q: int, t: int, i: int, xx: int, r: int)
    requires q > 0 && Zero(q, t * t + xx) && Zero(q, i * i + 1) && Zero(q, r - t * i)
    ensures Zero(q, r * r - xx)
  {
    hide Zero;
    var u := t * i;
    ZeroCombination(q, t * t + xx, -1, i * i + 1, t * t);
    assert (t * t + xx) * -1 + (i * i + 1) * (t * t) == u * u - xx;
    ZeroCombination(q, r - u, r + u, u * u - xx, 1);
    assert (r - u) * (r + u) + (u * u - xx) * 1 == r * r - xx;
  }
}
