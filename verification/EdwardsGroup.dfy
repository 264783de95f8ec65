/** Scalar multiples: double-and-add against repeated addition. */
module EdwardsGroup {
  import opened ModularArithmetic
  import opened EdwardsCurve
  import opened EdwardsLaw

  const NEUTRAL := Point(0, 1)

  ghost predicate AssociatesAt(c: Curve, p: Point, r: Point, s: Point)
    requires c.q > 1
  {
    OnCurve(c, p) && OnCurve(c, r) && OnCurve(c, s) ==>
      Edwards(c, Edwards(c, p, r), s) == Edwards(c, p, Edwards(c, r, s))
  }

  /** Associativity of the law on the curve: the one property of the law that is taken as given. */
  ghost predicate Associative(c: Curve)
    requires c.q > 1
  {
    forall p, r, s :: AssociatesAt(c, p, r, s)
  }

  ghost predicate ValidGroup(c: Curve) {
    ValidCurve(c) && Associative(c)
  }

  function ScalarMult(c: Curve, p: Point, e: nat): Point
    requires c.q > 1
  {
    if e == 0 then NEUTRAL else
      var h := ScalarMult(c, p, e / 2);
      var h2 := Edwards(c, h, h);
      if e % 2 == 1 then Edwards(c, h2, p) else h2
  }

  /** p added to the neutral element n times. */
  function Multiple(c: Curve, p: Point, n: nat): Point
    requires c.q > 1
  {
    if n == 0 then NEUTRAL else Edwards(c, Multiple(c, p, n - 1), p)
  }

  lemma NeutralOnCurve(c: Curve)
    requires c.q > 1
    ensures OnCurve(c, NEUTRAL)
  {}

  lemma NeutralLeft(c: Curve, p: Point)
    requires ValidCurve(c) && OnCurve(c, p)
    ensures Edwards(c, NEUTRAL, p) == p
  {
    hide Edwards;
    InvOfOne(c.q);
    NeutralCoordinates(c, p);
  }

  lemma InvOfOne(q: int)
    requires q > 1
    ensures Inv(q, 1) == 1
  {
    hide ExpMod, Pow;
    ExpModIsPower(1, q - 2, q);
    PowOfOne(q - 2);
  }

  lemma NeutralCoordinates(c: Curve, p: Point)
    requires c.q > 1 && Inv(c.q, 1) == 1 && 0 <= p.x < c.q && 0 <= p.y < c.q
    ensures Edwards(c, NEUTRAL, p) == p
  {
    hide Inv;
    ProductWithZero(c.d, p.x, p.y);
    assert p.x % c.q == p.x && p.y % c.q == p.y;
    assert 0 * p.y + p.x * 1 == p.x && 1 * p.y + 0 * p.x == p.y;
  }

  lemma ProductWithZero(d: int, x: int, y: int)
    ensures d * 0 * x * 1 * y == 0
  {}

  lemma {:induction false} PowOfOne(n: nat)
    ensures Pow(1, n) == 1
  {
    if n > 0 { PowOfOne(n - 1); }
  }

  lemma EdwardsCommutes(c: Curve, p: Point, r: Point)
    requires c.q > 1
    ensures Edwards(c, p, r) == Edwards(c, r, p)
  {
    FourFold(c.d, p.x, r.x, p.y, r.y);
    FourFold(c.d, r.x, p.x, r.y, p.y);
    assert c.d * (p.x * p.y) * (r.x * r.y) == c.d * (r.x * r.y) * (p.x * p.y);
  }

  lemma Associate(c: Curve, p: Point, r: Point, s: Point)
    requires ValidGroup(c) && OnCurve(c, p) && OnCurve(c, r) && OnCurve(c, s)
    ensures Edwards(c, Edwards(c, p, r), s) == Edwards(c, p, Edwards(c, r, s))
  {
    assert AssociatesAt(c, p, r, s);
  }

  lemma {:induction false} MultipleOnCurve(c: Curve, p: Point, n: nat)
    requires ValidCurve(c) && OnCurve(c, p)
    ensures OnCurve(c, Multiple(c, p, n))
  {
    if n == 0 {
      NeutralOnCurve(c);
    } else {
      MultipleOnCurve(c, p, n - 1);
      EdwardsStaysOnCurve(c, Multiple(c, p, n - 1), p);
    }
  }

  lemma {:induction false} MultipleAdd(c: Curve, p: Point, m: nat, n: nat)
    requires ValidGroup(c) && OnCurve(c, p)
    ensures Multiple(c, p, m + n) == Edwards(c, Multiple(c, p, m), Multiple(c, p, n))
  {
    hide Edwards, OnCurve;
    MultipleOnCurve(c, p, m);
    if n == 0 {
      NeutralLeft(c, Multiple(c, p, m));
      EdwardsCommutes(c, NEUTRAL, Multiple(c, p, m));
    } else {
      MultipleAdd(c, p, m, n - 1);
      MultipleOnCurve(c, p, n - 1);
      Associate(c, Multiple(c, p, m), Multiple(c, p, n - 1), p);
      assert m + n - 1 == m + (n - 1);
    }
  }

  lemma {:induction false} MultipleOfMultiple(c: Curve, p: Point, m: nat, n: nat)
    requires ValidGroup(c) && OnCurve(c, p)
    ensures m * n >= 0 && Multiple(c, Multiple(c, p, m), n) == Multiple(c, p, m * n)
  {
    hide Edwards, OnCurve, ValidGroup;
    if n > 0 {
      MultipleOfMultiple(c, p, m, n - 1);
      assert m * n == m * (n - 1) + m;
      MultipleAdd(c, p, m * (n - 1), m);
    }
  }

  /** Double-and-add is repeated addition. */
  lemma {:induction false} ScalarMultIsMultiple(c: Curve, p: Point, e: nat)
    requires ValidGroup(c) && OnCurve(c, p)
    ensures ScalarMult(c, p, e) == Multiple(c, p, e)
  {
    hide Edwards, OnCurve, ValidGroup;
    if e > 0 {
      ScalarMultIsMultiple(c, p, e / 2);
      MultipleAdd(c, p, e / 2, e / 2);
      assert e / 2 + e / 2 == if e % 2 == 1 then e - 1 else e;
    }
  }

  /** A point of order l has multiples that depend on the multiplier modulo l only. */
  lemma MultipleModOrder(c: Curve, p: Point, l: nat, n: nat)
    requires ValidGroup(c) && OnCurve(c, p) && l > 0 && Multiple(c, p, l) == NEUTRAL
    ensures Multiple(c, p, n % l) == Multiple(c, p, n)
  {
    hide Edwards, OnCurve;
    var k := n / l;
    assert n == l * k + n % l;
    MultipleOfMultiple(c, p, l, k);
    MultipleOfNeutral(c, k);
    MultipleAdd(c, p, l * k, n % l);
    MultipleOnCurve(c, p, n % l);
    NeutralLeft(c, Multiple(c, p, n % l));
  }

  lemma {:induction false} MultipleOfNeutral(c: Curve, k: nat)
    requires ValidCurve(c)
    ensures Multiple(c, NEUTRAL, k) == NEUTRAL
  {
    if k > 0 {
      MultipleOfNeutral(c, k - 1);
      NeutralOnCurve(c);
      NeutralLeft(c, NEUTRAL);
    }
  }
}
