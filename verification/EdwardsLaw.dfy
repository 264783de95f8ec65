/** The addition law of ed25519.py: it never divides by zero and it stays on the curve. */
module EdwardsLaw {
  import opened ModularArithmetic
  import opened EdwardsCurve

  function CurveEquation(c: Curve, p: Point): int {
    -p.x * p.x + p.y * p.y - 1 - c.d * p.x * p.x * p.y * p.y
  }

  predicate IsOnCurve(c: Curve, p: Point)
    requires c.q > 0
  {
    CurveEquation(c, p) % c.q == 0
  }

  /** A point as `edwards` returns it: both coordinates reduced. */
  ghost predicate OnCurve(c: Curve, p: Point)
    requires c.q > 0
  {
    0 <= p.x < c.q && 0 <= p.y < c.q && IsOnCurve(c, p)
  }

  function Edwards(c: Curve, p: Point, r: Point): Point
    requires c.q > 1
  {
    var q, x1, y1, x2, y2 := c.q, p.x, p.y, r.x, r.y;
    var x3 := (x1 * y2 + x2 * y1) * Inv(q, 1 + c.d * x1 * x2 * y1 * y2);
    var y3 := (y1 * y2 + x1 * x2) * Inv(q, 1 - c.d * x1 * x2 * y1 * y2);
    Point(x3 % q, y3 % q)
  }

  // --- completeness: no denominator is zero -------------------------------------------------------

  lemma NotASquare(c: Curve, z: int)
    requires ValidCurve(c)
    ensures !Zero(c.q, z * z - c.d)
  {
    assert !IsRoot(c.q, z, c.d);
  }

  /** A multiple of d by a non-zero square is not a square. */
  lemma NotASquareRatio(c: Curve, t: int, v: int)
    requires ValidCurve(c) && !Zero(c.q, t)
    ensures !Zero(c.q, v * v - c.d * (t * t))
  {
    if Zero(c.q, v * v - c.d * (t * t)) {
      var i := Inv(c.q, t);
      InvIsInverse(c.q, t);
      NotASquare(c, v * i);
      SquareRatio(c.q, c.d, t, v, i);
    }
  }

  lemma SquareRatio(q: int, d: int, t: int, v: int, i: int)
    requires q > 0 && Zero(q, v * v - d * (t * t)) && Zero(q, t * i - 1)
    ensures Zero(q, (v * i) * (v * i) - d)
  {
    hide Zero;
    var u := t * i;
    ZeroCombination(q, v * v - d * (t * t), i * i, u - 1, d * (u + 1));
    assert (v * v - d * (t * t)) * (i * i) == (v * i) * (v * i) - d * (u * u) by {
      assert (v * v) * (i * i) == (v * i) * (v * i);
      assert (t * t) * (i * i) == u * u;
      assert (d * (t * t)) * (i * i) == d * ((t * t) * (i * i));
    }
    assert (u - 1) * (d * (u + 1)) == d * (u * u) - d;
  }

  lemma SquareOfSum(y: int, i: int, a: int, s: int)
    requires s == 1 || s == -1
    ensures (y + s * (i * a)) * (y + s * (i * a)) == y * y + 2 * s * (i * (a * y)) + (i * i) * (a * a)
  {
    var b := i * a;
    assert (s * b) * (s * b) == b * b;
    assert (y + s * b) * (y + s * b) == y * y + 2 * s * (b * y) + b * b;
    assert b * b == (i * i) * (a * a);
    assert b * y == i * (a * y);
  }

  lemma MixedProducts(d: int, p1: int, p2: int)
    ensures (d * p1 * p2) * p1 == (d * p1 * p1) * p2
    ensures (d * p1 * p1) * (d * p2 * p2) == (d * p1 * p2) * (d * p1 * p2)
  {}

  /** Both squares expanded: the cross terms cancel, since e x1 y1 = d1 x2 y2. */
  lemma CrossTermsCancel(y1: int, y2: int, i: int, a1: int, x2: int, d1: int, s: int)
    requires s == 1 || s == -1
    requires a1 * y1 == d1 * (x2 * y2)
    ensures var v, w := y1 + s * (i * a1), y2 + s * (i * x2);
            v * v - d1 * (w * w) == (y1 * y1 - d1 * (y2 * y2)) + (i * i) * (a1 * a1 - d1 * (x2 * x2))
  {
    SquareOfSum(y1, i, a1, s);
    SquareOfSum(y2, i, x2, s);
    CrossTerm(d1, s, i, x2 * y2);
    Distribute(d1, y2 * y2, s * (i * (x2 * y2)), i * i, x2 * x2, a1 * a1);
  }

  lemma CrossTerm(d: int, s: int, i: int, c: int)
    ensures d * (s * (i * c)) == s * (i * (d * c))
  {}

  lemma Distribute(d: int, f: int, g: int, j: int, h: int, k: int)
    ensures d * (f + 2 * g + j * h) == d * f + 2 * (d * g) + d * (j * h)
    ensures j * (k - d * h) == j * k - d * (j * h)
  {}

  lemma Regroup(a: int, b: int, f: int, g: int, d1: int, d2: int, e2: int)
    requires d1 * d2 == e2
    ensures b - e2 * a - d1 * (g - f) == (b - a - 1 - d1) - d1 * (g - f - 1 - d2) - (e2 - 1) * (a + 1)
  {
    assert d1 * (g - f - 1 - d2) == d1 * (g - f) - d1 - d1 * d2;
    assert (e2 - 1) * (a + 1) == e2 * a + e2 - a - 1;
  }

  /** The curve equation in squares: b - a - 1 - d (x y)^2. */
  lemma EquationInSquares(c: Curve, p: Point)
    ensures CurveEquation(c, p) == p.y * p.y - p.x * p.x - 1 - c.d * (p.x * p.y) * (p.x * p.y)
  {
    var t := c.d * p.x;
    assert c.d * p.x * p.x * p.y * p.y == c.d * (p.x * p.y) * (p.x * p.y) by {
      assert t * p.x * p.y * p.y == (t * p.y) * (p.x * p.y);
      assert t * p.y == c.d * (p.x * p.y);
    }
  }

  lemma FourFold(d: int, x1: int, x2: int, y1: int, y2: int)
    ensures d * x1 * x2 * y1 * y2 == d * (x1 * y1) * (x2 * y2)
  {
    assert d * x1 * x2 * y1 == (d * (x1 * y1)) * x2;
  }

  lemma CrossIdentity(d: int, i: int, x1: int, y1: int, x2: int, y2: int, s: int)
    requires s == 1 || s == -1
    ensures var e, d1, d2 := d * (x1 * y1) * (x2 * y2), d * (x1 * y1) * (x1 * y1), d * (x2 * y2) * (x2 * y2);
            var v, w, a1 := y1 + s * (i * (e * x1)), y2 + s * (i * x2), e * x1;
            v * v - d1 * (w * w) ==
              (y1 * y1 - x1 * x1 - 1 - d1) - d1 * (y2 * y2 - x2 * x2 - 1 - d2)
              - (e * e - 1) * (x1 * x1 + 1) + (i * i + 1) * (a1 * a1 - d1 * (x2 * x2))
  {
    var p1, p2 := x1 * y1, x2 * y2;
    var e, d1, d2 := d * p1 * p2, d * p1 * p1, d * p2 * p2;
    var a1, v, w := e * x1, y1 + s * (i * (e * x1)), y2 + s * (i * x2);
    MixedProducts(d, p1, p2);
    assert a1 * y1 == e * p1;
    CrossTermsCancel(y1, y2, i, a1, x2, d1, s);
    assert a1 * a1 == (e * e) * (x1 * x1);
    CrossAssemble(v * v - d1 * (w * w), x1 * x1, y1 * y1, x2 * x2, y2 * y2, i * i, a1 * a1, d1, d2, e * e);
  }

  lemma CrossAssemble(lhs: int, a: int, b: int, f: int, g: int, j: int, k: int, d1: int, d2: int, e2: int)
    requires lhs == (b - d1 * g) + j * (k - d1 * f) && k == e2 * a && d1 * d2 == e2
    ensures lhs == (b - a - 1 - d1) - d1 * (g - f - 1 - d2) - (e2 - 1) * (a + 1) + (j + 1) * (k - d1 * f)
  {
    Regroup(a, b, f, g, d1, d2, e2);
    var t := k - d1 * f;
    assert (j + 1) * t == j * t + t;
    assert d1 * (g - f) == d1 * g - d1 * f;
  }

  lemma ScaledSquare(d: int, p1: int, w: int)
    ensures d * ((p1 * w) * (p1 * w)) == d * p1 * p1 * (w * w)
  {
    assert (p1 * w) * (p1 * w) == (p1 * p1) * (w * w);
    assert d * ((p1 * p1) * (w * w)) == (d * (p1 * p1)) * (w * w);
    assert d * (p1 * p1) == d * p1 * p1;
  }

  lemma CrossCombination(q: int, e1: int, e2: int, n: int, j: int, d1: int, m: int, k: int)
    requires q > 0 && Zero(q, e1) && Zero(q, e2) && Zero(q, n) && Zero(q, j)
    ensures Zero(q, e1 - d1 * e2 - n * m + j * k)
  {
    hide Zero;
    ZeroProduct(q, e2, d1);
    ZeroCombination(q, n, m, j, -k);
    ZeroSum(q, e1, d1 * e2);
    ZeroSum(q, e1 - d1 * e2, n * m + j * -k);
  }

  /** If d x1 x2 y1 y2 is 1 or -1, a square is d times a square; for either sign s of the root of -1. */
  lemma CrossSquare(c: Curve, i: int, p: Point, r: Point, s: int)
    requires c.q > 0 && (s == 1 || s == -1) && Zero(c.q, i * i + 1) && IsOnCurve(c, p) && IsOnCurve(c, r)
    requires var e := c.d * (p.x * p.y) * (r.x * r.y); Zero(c.q, e * e - 1)
    ensures var e := c.d * (p.x * p.y) * (r.x * r.y);
            var v, w := p.y + s * (i * (e * p.x)), r.y + s * (i * r.x);
            Zero(c.q, v * v - c.d * ((p.x * p.y * w) * (p.x * p.y * w)))
  {
    assert Zero(c.q, CurveEquation(c, p)) && Zero(c.q, CurveEquation(c, r));
    hide Zero;
    hide CurveEquation;
    var e, d1 := c.d * (p.x * p.y) * (r.x * r.y), c.d * (p.x * p.y) * (p.x * p.y);
    EquationInSquares(c, p);
    EquationInSquares(c, r);
    CrossIdentity(c.d, i, p.x, p.y, r.x, r.y, s);
    ScaledSquare(c.d, p.x * p.y, r.y + s * (i * r.x));
    var a1 := e * p.x;
    CrossCombination(c.q, CurveEquation(c, p), CurveEquation(c, r), e * e - 1, i * i + 1,
      d1, p.x * p.x + 1, a1 * a1 - d1 * (r.x * r.x));
  }

  lemma UnitIsNotZero(q: int, e: int)
    requires q > 1 && Zero(q, e * e - 1)
    ensures !Zero(q, e)
  {
    if Zero(q, e) {
      ZeroProduct(q, e, e);
      SmallZero(q, 1);
      ZeroSum(q, e * e, e * e - 1);
    }
  }

  lemma MoveFactor(d: int, a: int, b: int)
    ensures a * (d * b) == d * a * b
  {}

  lemma CrossFactorIsZero(c: Curve, p: Point, r: Point, s: int)
    requires ValidCurve(c) && (s == 1 || s == -1) && IsOnCurve(c, p) && IsOnCurve(c, r)
    requires var e := c.d * (p.x * p.y) * (r.x * r.y); Zero(c.q, e * e - 1)
    ensures Zero(c.q, r.y + s * (RootOfMinusOne(c.q) * r.x))
  {
    hide Zero;
    var q, i, p1 := c.q, RootOfMinusOne(c.q), p.x * p.y;
    var e := c.d * p1 * (r.x * r.y);
    var v, w := p.y + s * (i * (e * p.x)), r.y + s * (i * r.x);
    RootOfMinusOneSquared(q);
    CrossSquare(c, i, p, r, s);
    if !Zero(q, p1 * w) {
      NotASquareRatio(c, p1 * w, v);
    } else {
      Euclid(q, p1, w);
      if Zero(q, p1) {
        ZeroProduct(q, p1, c.d * (r.x * r.y));
        MoveFactor(c.d, p1, r.x * r.y);
        UnitIsNotZero(q, e);
      }
    }
  }

  /** d x1 x2 y1 y2 is never 1 or -1 for two points of the curve: this is where d must not be a square. */
  lemma ProductIsNotUnit(c: Curve, p: Point, r: Point)
    requires ValidCurve(c) && IsOnCurve(c, p) && IsOnCurve(c, r)
    ensures var e := c.d * (p.x * p.y) * (r.x * r.y); !Zero(c.q, e * e - 1)
  {
    var e, q, b := c.d * (p.x * p.y) * (r.x * r.y), c.q, RootOfMinusOne(c.q) * r.x;
    if Zero(q, e * e - 1) {
      hide Zero;
      CrossFactorIsZero(c, p, r, 1);
      CrossFactorIsZero(c, p, r, -1);
      BothSigns(q, r.y, b);
      ZeroProduct(q, r.y, c.d * (p.x * p.y) * r.x);
      assert (c.d * (p.x * p.y) * r.x) * r.y == e;
      UnitIsNotZero(q, e);
    }
  }

  lemma BothSigns(q: int, y: int, b: int)
    requires Prime(q) && q > 2 && Zero(q, y + 1 * b) && Zero(q, y + -1 * b)
    ensures Zero(q, y)
  {
    SmallZero(q, 2);
    ZeroSum(q, y + 1 * b, y + -1 * b);
    assert (y + 1 * b) + (y + -1 * b) == 2 * y;
    Euclid(q, 2, y);
  }

  /** The law is complete: neither denominator of `edwards` is divisible by q. */
  lemma DenominatorsAreNotZero(c: Curve, p: Point, r: Point)
    requires ValidCurve(c) && IsOnCurve(c, p) && IsOnCurve(c, r)
    ensures !Zero(c.q, 1 + c.d * p.x * r.x * p.y * r.y)
    ensures !Zero(c.q, 1 - c.d * p.x * r.x * p.y * r.y)
  {
    hide Zero;
    var q, e := c.q, c.d * p.x * r.x * p.y * r.y;
    FourFold(c.d, p.x, r.x, p.y, r.y);
    ProductIsNotUnit(c, p, r);
    assert (1 + e) * (e - 1) == e * e - 1 && (1 - e) * (-e - 1) == e * e - 1;
    if Zero(q, 1 + e) { ZeroProduct(q, 1 + e, e - 1); }
    if Zero(q, 1 - e) { ZeroProduct(q, 1 - e, -e - 1); }
  }

  // --- closure: the sum of two points of the curve is on the curve ---------------------------------

  /** The four products behind the law: b^2 - a^2, b^2 + a^2 and a b for a = x1 y2 + x2 y1, b = y1 y2 + x1 x2. */
  lemma SumProducts(x1: int, y1: int, x2: int, y2: int)
    ensures var a, b := x1 * y2 + x2 * y1, y1 * y2 + x1 * x2;
            var p1, p2, s1, s2 := x1 * y1, x2 * y2, x1 * x1 + y1 * y1, x2 * x2 + y2 * y2;
            && b * b - a * a == (y1 * y1 - x1 * x1) * (y2 * y2 - x2 * x2)
            && b * b + a * a == s1 * s2 + 4 * (p1 * p2)
            && a * b == p1 * s2 + p2 * s1
  {}

  lemma SumOfSquares(x: int, y: int)
    ensures var s, w, p := x * x + y * y, y * y - x * x, x * y; s * s == w * w + 4 * (p * p)
  {}

  lemma SquareOfMixedSum(p1: int, p2: int, s1: int, s2: int)
    ensures var ab := p1 * s2 + p2 * s1;
            ab * ab == (p1 * p1) * (s2 * s2) + (p2 * p2) * (s1 * s1) + 2 * ((p1 * p2) * (s1 * s2))
  {}

  lemma DistributeD(d: int, p1: int, p2: int, t1: int, t2: int, s: int)
    ensures d * ((p1 * p1) * t2 + (p2 * p2) * t1 + 2 * ((p1 * p2) * s))
            == (d * p1 * p1) * t2 + (d * p2 * p2) * t1 + 2 * ((d * p1 * p2) * s)
  {}

  lemma FourFoldProducts(d: int, p1: int, p2: int)
    ensures (d * p1 * p1) * (4 * (p2 * p2)) == 4 * ((d * p1 * p2) * (p1 * p2))
    ensures (d * p2 * p2) * (4 * (p1 * p1)) == 4 * ((d * p1 * p2) * (p1 * p2))
  {}

  lemma AddScaled(d1: int, d2: int, t1: int, t2: int, a1: int, a2: int, b1: int, b2: int, ep: int)
    requires t1 == a1 + b1 && t2 == a2 + b2 && d1 * b2 == 4 * ep && d2 * b1 == 4 * ep
    ensures d1 * t2 + d2 * t1 == d1 * a2 + d2 * a1 + 8 * ep
  {}

  /** d (a b)^2, with the cross terms collected. */
  lemma SquaredProduct(d: int, p1: int, p2: int, s1: int, s2: int, w1: int, w2: int)
    requires s1 * s1 == w1 * w1 + 4 * (p1 * p1) && s2 * s2 == w2 * w2 + 4 * (p2 * p2)
    ensures var e, d1, d2, ab := d * p1 * p2, d * p1 * p1, d * p2 * p2, p1 * s2 + p2 * s1;
            d * (ab * ab) == d1 * (w2 * w2) + d2 * (w1 * w1) + 8 * (e * (p1 * p2)) + 2 * (e * (s1 * s2))
  {
    SquareOfMixedSum(p1, p2, s1, s2);
    DistributeD(d, p1, p2, s1 * s1, s2 * s2, s1 * s2);
    FourFoldProducts(d, p1, p2);
    AddScaled(d * p1 * p1, d * p2 * p2, s1 * s1, s2 * s2, w1 * w1, w2 * w2, 4 * (p1 * p1), 4 * (p2 * p2),
              (d * p1 * p2) * (p1 * p2));
  }

  lemma WeightedSquares(a2: int, b2: int, e: int)
    ensures b2 * ((1 + e) * (1 + e)) - a2 * ((1 - e) * (1 - e)) == (b2 - a2) * (1 + e * e) + 2 * (e * (b2 + a2))
  {
    assert (1 + e) * (1 + e) == 1 + e * e + 2 * e;
    assert (1 - e) * (1 - e) == 1 + e * e - 2 * e;
    var f := 1 + e * e;
    assert b2 * (f + 2 * e) - a2 * (f - 2 * e) == (b2 - a2) * f + 2 * (e * (b2 + a2)) by {
      assert b2 * (f + 2 * e) == b2 * f + 2 * (e * b2);
      assert a2 * (f - 2 * e) == a2 * f - 2 * (e * a2);
    }
  }

  /** The numerator of the curve equation at the sum is a difference of two nearly equal products. */
  lemma SumNumerator(d: int, x1: int, y1: int, x2: int, y2: int)
    ensures var a, b, e := x1 * y2 + x2 * y1, y1 * y2 + x1 * x2, d * (x1 * y1) * (x2 * y2);
            var u, v := 1 + e, 1 - e;
            var d1, d2 := d * (x1 * y1) * (x1 * y1), d * (x2 * y2) * (x2 * y2);
            var w1, w2 := y1 * y1 - x1 * x1, y2 * y2 - x2 * x2;
            b * b * (u * u) - a * a * (v * v) - (u * u) * (v * v) - d * ((a * b) * (a * b)) ==
              (w1 - d1 * w2) * (w2 - d2 * w1) - (1 - d1 * d2) * (1 - d1 * d2)
  {
    var a, b := x1 * y2 + x2 * y1, y1 * y2 + x1 * x2;
    var p1, p2, s1, s2 := x1 * y1, x2 * y2, x1 * x1 + y1 * y1, x2 * x2 + y2 * y2;
    var w1, w2 := y1 * y1 - x1 * x1, y2 * y2 - x2 * x2;
    var e, d1, d2 := d * p1 * p2, d * p1 * p1, d * p2 * p2;
    SumProducts(x1, y1, x2, y2);
    SumOfSquares(x1, y1);
    SumOfSquares(x2, y2);
    SquaredProduct(d, p1, p2, s1, s2, w1, w2);
    WeightedSquares(a * a, b * b, e);
    MixedProducts(d, p1, p2);
    ScaledSum(e, b * b + a * a, s1 * s2, p1 * p2);
    NumeratorAssemble(e, d1, d2, w1, w2, e * (s1 * s2), e * (p1 * p2), e * (b * b + a * a),
      b * b * ((1 + e) * (1 + e)) - a * a * ((1 - e) * (1 - e)), b * b - a * a, d * ((a * b) * (a * b)));
  }

  lemma ScaledSum(e: int, t: int, s: int, p: int)
    requires t == s + 4 * p
    ensures e * t == e * s + 4 * (e * p)
  {}

  lemma NumeratorAssemble(e: int, d1: int, d2: int, w1: int, w2: int, es: int, ep: int, eb: int,
                          weighted: int, difference: int, squared: int)
    requires d1 * d2 == e * e && eb == es + 4 * ep && difference == w1 * w2
    requires weighted == difference * (1 + e * e) + 2 * eb
    requires squared == d1 * (w2 * w2) + d2 * (w1 * w1) + 8 * ep + 2 * es
    ensures var u, v := 1 + e, 1 - e;
            weighted - (u * u) * (v * v) - squared == (w1 - d1 * w2) * (w2 - d2 * w1) - (1 - d1 * d2) * (1 - d1 * d2)
  {
    UnitSquares(e);
    NearProducts(w1, w2, d1, d2);
    var m := d1 * d2;
    assert difference * (1 + e * e) == w1 * w2 + m * (w1 * w2);
  }

  lemma UnitSquares(e: int)
    ensures var u, v := 1 + e, 1 - e; (u * u) * (v * v) == (1 - e * e) * (1 - e * e)
  {}

  lemma NearProducts(w1: int, w2: int, d1: int, d2: int)
    ensures (w1 - d1 * w2) * (w2 - d2 * w1) == w1 * w2 - d2 * (w1 * w1) - d1 * (w2 * w2) + (d1 * d2) * (w1 * w2)
  {}

  lemma NearOne(q: int, w1: int, w2: int, d1: int, d2: int)
    requires q > 0 && Zero(q, w1 - 1 - d1) && Zero(q, w2 - 1 - d2)
    ensures Zero(q, (w1 - d1 * w2) - (1 - d1 * d2))
  {
    hide Zero;
    ZeroCombination(q, w1 - 1 - d1, 1, w2 - 1 - d2, -d1);
    assert (w1 - 1 - d1) * 1 + (w2 - 1 - d2) * -d1 == (w1 - d1 * w2) - (1 - d1 * d2);
  }

  lemma NumeratorIsZero(q: int, w1: int, w2: int, d1: int, d2: int)
    requires q > 0 && Zero(q, w1 - 1 - d1) && Zero(q, w2 - 1 - d2)
    ensures Zero(q, (w1 - d1 * w2) * (w2 - d2 * w1) - (1 - d1 * d2) * (1 - d1 * d2))
  {
    hide Zero;
    NearOne(q, w1, w2, d1, d2);
    NearOne(q, w2, w1, d2, d1);
    Commute(d1, d2);
    Telescope(q, w1 - d1 * w2, 1 - d1 * d2, w2 - d2 * w1, 1 - d1 * d2);
  }

  lemma Commute(a: int, b: int)
    ensures a * b == b * a
  {}

  /** x3 = a * i, reduced, where i inverts u: the quotient times u is a again. */
  lemma Quotient(q: int, a: int, u: int, i: int)
    requires q > 0 && Zero(q, u * i - 1)
    ensures 0 <= a * i % q < q && Zero(q, a * i % q * u - a)
  {
    var x := a * i % q;
    ResidueDifference(q, a * i);
    hide Zero;
    ZeroCombination(q, x - a * i, u, u * i - 1, a);
    assert (a * i) * u == (u * i) * a;
    assert (x - a * i) * u + (u * i - 1) * a == x * u - a;
  }

  lemma SquareOfQuotient(q: int, x: int, u: int, a: int)
    requires q > 0 && Zero(q, x * u - a)
    ensures Zero(q, (x * x) * (u * u) - a * a)
  {
    hide Zero;
    var t := x * u;
    SquaresDiffer(q, t, a);
    assert t * t == (x * x) * (u * u);
  }

  /** Clearing the denominators u and v of the curve equation at (a/u, b/v). */
  lemma ClearDenominators(q: int, d: int, u2: int, v2: int, a2: int, b2: int, x2: int, y2: int)
    requires q > 0 && Zero(q, x2 * u2 - a2) && Zero(q, y2 * v2 - b2)
    requires Zero(q, b2 * u2 - a2 * v2 - u2 * v2 - d * (a2 * b2))
    ensures Zero(q, (u2 * v2) * (y2 - x2 - 1 - d * (x2 * y2)))
  {
    hide Zero;
    ZeroCombination(q, y2 * v2 - b2, u2 - d * a2, x2 * u2 - a2, -v2 - d * (y2 * v2));
    ClearingIdentity(d, u2, v2, a2, b2, x2, y2);
    ZeroSum(q, (y2 * v2 - b2) * (u2 - d * a2) + (x2 * u2 - a2) * (-v2 - d * (y2 * v2)),
      -(b2 * u2 - a2 * v2 - u2 * v2 - d * (a2 * b2))) by {
      ZeroProduct(q, b2 * u2 - a2 * v2 - u2 * v2 - d * (a2 * b2), -1);
    }
  }

  lemma ClearingIdentity(d: int, u2: int, v2: int, a2: int, b2: int, x2: int, y2: int)
    ensures (u2 * v2) * (y2 - x2 - 1 - d * (x2 * y2)) ==
              (y2 * v2 - b2) * (u2 - d * a2) + (x2 * u2 - a2) * (-v2 - d * (y2 * v2))
              - -(b2 * u2 - a2 * v2 - u2 * v2 - d * (a2 * b2))
  {}

  lemma NonZeroProduct(q: int, u: int, v: int)
    requires Prime(q) && !Zero(q, u) && !Zero(q, v)
    ensures !Zero(q, (u * u) * (v * v))
  {
    hide Zero;
    if Zero(q, (u * u) * (v * v)) {
      Euclid(q, u * u, v * v);
      if Zero(q, u * u) { Euclid(q, u, u); } else { Euclid(q, v, v); }
    }
  }

  lemma EquationAtQuotients(q: int, d: int, x3: int, y3: int, u: int, v: int, a: int, b: int)
    requires Prime(q) && !Zero(q, u) && !Zero(q, v) && Zero(q, x3 * u - a) && Zero(q, y3 * v - b)
    requires Zero(q, b * b * (u * u) - a * a * (v * v) - (u * u) * (v * v) - d * ((a * b) * (a * b)))
    ensures Zero(q, y3 * y3 - x3 * x3 - 1 - d * (x3 * y3) * (x3 * y3))
  {
    hide Zero;
    SquareOfQuotient(q, x3, u, a);
    SquareOfQuotient(q, y3, v, b);
    SwapInner(a, b, a, b);
    SquareOfProduct(d, a, b);
    SquareOfProduct(d, x3, y3);
    ClearDenominators(q, d, u * u, v * v, a * a, b * b, x3 * x3, y3 * y3);
    NonZeroProduct(q, u, v);
    Euclid(q, (u * u) * (v * v), y3 * y3 - x3 * x3 - 1 - d * ((x3 * x3) * (y3 * y3)));
  }

  lemma SquareOfProduct(d: int, a: int, b: int)
    ensures d * ((a * b) * (a * b)) == d * ((a * a) * (b * b)) == d * (a * b) * (a * b)
  {}

  /** `edwards` stays on the curve and returns reduced coordinates. */
  lemma EdwardsStaysOnCurve(c: Curve, p: Point, r: Point)
    requires ValidCurve(c) && IsOnCurve(c, p) && IsOnCurve(c, r)
    ensures OnCurve(c, Edwards(c, p, r))
  {
    var q, d, x1, y1, x2, y2 := c.q, c.d, p.x, p.y, r.x, r.y;
    var a, b, u, v := x1 * y2 + x2 * y1, y1 * y2 + x1 * x2, 1 + d * x1 * x2 * y1 * y2, 1 - d * x1 * x2 * y1 * y2;
    var s := Edwards(c, p, r);
    DenominatorsAreNotZero(c, p, r);
    InvIsInverse(q, u);
    InvIsInverse(q, v);
    assert Zero(q, CurveEquation(c, p)) && Zero(q, CurveEquation(c, r));
    hide Zero;
    hide CurveEquation;
    Quotient(q, a, u, Inv(q, u));
    Quotient(q, b, v, Inv(q, v));
    EquationInSquares(c, p);
    EquationInSquares(c, r);
    EquationInSquares(c, s);
    FourFold(d, x1, x2, y1, y2);
    SumNumerator(d, x1, y1, x2, y2);
    NumeratorIsZero(q, y1 * y1 - x1 * x1, y2 * y2 - x2 * x2, d * (x1 * y1) * (x1 * y1), d * (x2 * y2) * (x2 * y2));
    EquationAtQuotients(q, d, s.x, s.y, u, v, a, b);
    ZeroIsOnCurve(c, s);
  }

  lemma ZeroIsOnCurve(c: Curve, p: Point)
    requires c.q > 0 && Zero(c.q, CurveEquation(c, p))
    ensures IsOnCurve(c, p)
  {}

  /** The sum is the one pair of residues that solves the two equations of the law, without division. */
  lemma EdwardsExactly(c: Curve, p: Point, r: Point, s: Point)
    requires ValidCurve(c) && IsOnCurve(c, p) && IsOnCurve(c, r)
    ensures s == Edwards(c, p, r) <==>
              var t := c.d * p.x * r.x * p.y * r.y;
              && 0 <= s.x < c.q && (s.x * (1 + t) - (p.x * r.y + r.x * p.y)) % c.q == 0
              && 0 <= s.y < c.q && (s.y * (1 - t) - (p.y * r.y + p.x * r.x)) % c.q == 0
  {
    var q, t := c.q, c.d * p.x * r.x * p.y * r.y;
    var a, b, e := p.x * r.y + r.x * p.y, p.y * r.y + p.x * r.x, Edwards(c, p, r);
    DenominatorsAreNotZero(c, p, r);
    InvIsInverse(q, 1 + t);
    InvIsInverse(q, 1 - t);
    QuotientExactly(q, a, 1 + t, Inv(q, 1 + t), s.x);
    QuotientExactly(q, b, 1 - t, Inv(q, 1 - t), s.y);
    assert e.x == a * Inv(q, 1 + t) % q && e.y == b * Inv(q, 1 - t) % q;
  }

  lemma QuotientExactly(q: int, a: int, u: int, i: int, x: int)
    requires Prime(q) && !Zero(q, u) && Zero(q, u * i - 1)
    ensures x == a * i % q <==> 0 <= x < q && Zero(q, x * u - a)
  {
    Quotient(q, a, u, i);
    var y := a * i % q;
    if 0 <= x < q && Zero(q, x * u - a) {
      hide Zero, Prime;
      ZeroCombination(q, x * u - a, 1, y * u - a, -1);
      assert (x * u - a) * 1 + (y * u - a) * -1 == x * u - y * u;
      Cancel(q, x, y, u);
      SmallZero(q, x - y);
    }
  }
}
