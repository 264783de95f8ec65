/** Points whose coordinates are not reduced: the law and double-and-add see residues only. */
module EdwardsReduction {
  import opened ModularArithmetic
  import opened EdwardsCurve
  import opened EdwardsLaw
  import opened EdwardsGroup

  function Reduced(c: Curve, p: Point): Point
    requires c.q > 0
  {
    Point(p.x % c.q, p.y % c.q)
  }

  ghost predicate Same(q: int, a: int, b: int)
    requires q > 0
  {
    Zero(q, a - b)
  }

  lemma SameTimes(q: int, a: int, b: int, e: int, f: int)
    requires q > 0 && Same(q, a, b) && Same(q, e, f)
    ensures Same(q, a * e, b * f)
  {
    hide Zero;
    ZeroCombination(q, a - b, e, e - f, b);
    TwoDifferences(a, b, e, f);
  }

  lemma TwoDifferences(a: int, b: int, e: int, f: int)
    ensures (a - b) * e + (e - f) * b == a * e - b * f
  {}

  lemma SamePlus(q: int, a: int, b: int, e: int, f: int)
    requires q > 0 && Same(q, a, b) && Same(q, e, f)
    ensures Same(q, a + e, b + f) && Same(q, a - e, b - f)
  {
    hide Zero;
    ZeroSum(q, a - b, e - f);
    assert (a - b) + (e - f) == (a + e) - (b + f) && (a - b) - (e - f) == (a - e) - (b - f);
  }

  lemma SameItself(q: int, a: int)
    requires q > 0
    ensures Same(q, a, a)
  {
    assert a - a == 0;
  }

  lemma SameResidues(q: int, a: int)
    requires q > 0
    ensures Same(q, a % q, a) && 0 <= a % q < q
  {
    ResidueDifference(q, a);
  }

  lemma InvOfSame(q: int, a: int, b: int)
    requires q > 2 && Same(q, a, b)
    ensures Inv(q, a) == Inv(q, b)
  {
    SameResidue(q, a, b);
    hide Zero, ExpMod;
    ExpModIsPower(a, q - 2, q);
    ExpModIsPower(b, q - 2, q);
    PowResidue(q, a, b, q - 2);
  }

  /** x3 and y3 of `edwards`, by numerator and denominator. */
  lemma QuotientOfSame(q: int, n: int, m: int, u: int, v: int)
    requires q > 2 && Same(q, n, m) && Same(q, u, v)
    ensures n * Inv(q, u) % q == m * Inv(q, v) % q
  {
    InvOfSame(q, u, v);
    var i := Inv(q, u);
    hide Inv;
    SameItself(q, i);
    SameTimes(q, n, m, i, i);
    SameResidue(q, n * i, m * i);
  }

  /** The products in the law, for coordinates with the same residues. */
  lemma PartsOfSame(q: int, d: int, x: int, y: int, u: int, v: int, x2: int, y2: int)
    requires q > 0 && Same(q, x, u) && Same(q, y, v)
    ensures Same(q, x * y2 + x2 * y, u * y2 + x2 * v) && Same(q, y * y2 + x * x2, v * y2 + u * x2)
    ensures Same(q, d * x * x2 * y * y2, d * u * x2 * v * y2)
  {
    hide Same;
    SameItself(q, x2);
    SameItself(q, y2);
    SameItself(q, d);
    SameTimes(q, x, u, y2, y2);
    SameTimes(q, x2, x2, y, v);
    SamePlus(q, x * y2, u * y2, x2 * y, x2 * v);
    SameTimes(q, y, v, y2, y2);
    SameTimes(q, x, u, x2, x2);
    SamePlus(q, y * y2, v * y2, x * x2, u * x2);
    SameTimes(q, d, d, x, u);
    SameTimes(q, d * x, d * u, x2, x2);
    SameTimes(q, d * x * x2, d * u * x2, y, v);
    SameTimes(q, d * x * x2 * y, d * u * x2 * v, y2, y2);
  }

  lemma EdwardsOfSame(c: Curve, p: Point, o: Point, r: Point)
    requires c.q > 2 && Same(c.q, p.x, o.x) && Same(c.q, p.y, o.y)
    ensures Edwards(c, p, r) == Edwards(c, o, r)
  {
    hide Same, Inv;
    var q, e, f := c.q, c.d * p.x * r.x * p.y * r.y, c.d * o.x * r.x * o.y * r.y;
    PartsOfSame(q, c.d, p.x, p.y, o.x, o.y, r.x, r.y);
    SameItself(q, 1);
    SamePlus(q, 1, 1, e, f);
    QuotientOfSame(q, p.x * r.y + r.x * p.y, o.x * r.y + r.x * o.y, 1 + e, 1 + f);
    QuotientOfSame(q, p.y * r.y + p.x * r.x, o.y * r.y + o.x * r.x, 1 - e, 1 - f);
  }

  /** The law does not see whether its arguments are reduced. */
  lemma EdwardsOfReduced(c: Curve, p: Point, r: Point)
    requires c.q > 2
    ensures Edwards(c, Reduced(c, p), r) == Edwards(c, p, r) && Edwards(c, p, Reduced(c, r)) == Edwards(c, p, r)
  {
    SameResidues(c.q, p.x);
    SameResidues(c.q, p.y);
    SameResidues(c.q, r.x);
    SameResidues(c.q, r.y);
    hide Edwards, Same;
    EdwardsOfSame(c, Reduced(c, p), p, r);
    EdwardsOfSame(c, Reduced(c, r), r, p);
    EdwardsCommutes(c, p, r);
    EdwardsCommutes(c, p, Reduced(c, r));
  }

  /** Nor does double-and-add. */
  lemma {:induction false} ScalarMultOfReduced(c: Curve, p: Point, e: nat)
    requires c.q > 2
    ensures ScalarMult(c, p, e) == ScalarMult(c, Reduced(c, p), e)
    decreases e
  {
    hide Edwards, Reduced;
    if e > 0 {
      ScalarMultOfReduced(c, p, e / 2);
      var h := ScalarMult(c, p, e / 2);
      EdwardsOfReduced(c, Edwards(c, h, h), p);
    }
  }

  /** A point of the curve stays on it when it is reduced. */
  lemma ReducedOnCurve(c: Curve, p: Point)
    requires c.q > 2 && IsOnCurve(c, p)
    ensures OnCurve(c, Reduced(c, p))
  {
    var q, r := c.q, Reduced(c, p);
    SameResidues(q, p.x);
    SameResidues(q, p.y);
    EquationOfSame(c, r, p);
    SameResidue(q, CurveEquation(c, r), CurveEquation(c, p));
  }

  lemma EquationOfSame(c: Curve, p: Point, o: Point)
    requires c.q > 0 && Same(c.q, p.x, o.x) && Same(c.q, p.y, o.y)
    ensures Same(c.q, CurveEquation(c, p), CurveEquation(c, o))
  {
    hide Same;
    var q := c.q;
    SameItself(q, 0);
    SameItself(q, 1);
    SameItself(q, c.d);
    SamePlus(q, 0, 0, p.x, o.x);
    SameTimes(q, 0 - p.x, 0 - o.x, p.x, o.x);
    SameTimes(q, p.y, o.y, p.y, o.y);
    SamePlus(q, (0 - p.x) * p.x, (0 - o.x) * o.x, p.y * p.y, o.y * o.y);
    SamePlus(q, (0 - p.x) * p.x + p.y * p.y, (0 - o.x) * o.x + o.y * o.y, 1, 1);
    SameTimes(q, c.d, c.d, p.x, o.x);
    SameTimes(q, c.d * p.x, c.d * o.x, p.x, o.x);
    SameTimes(q, c.d * p.x * p.x, c.d * o.x * o.x, p.y, o.y);
    SameTimes(q, c.d * p.x * p.x * p.y, c.d * o.x * o.x * o.y, p.y, o.y);
    SamePlus(q, (0 - p.x) * p.x + p.y * p.y - 1, (0 - o.x) * o.x + o.y * o.y - 1,
             c.d * p.x * p.x * p.y * p.y, c.d * o.x * o.x * o.y * o.y);
  }
}
