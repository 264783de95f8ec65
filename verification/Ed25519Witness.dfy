/** A small scheme that meets every hypothesis of Ed25519: the theorems there are not about nothing. */
module Ed25519Witness {
  import opened ModularArithmetic
  import opened BitCodec
  import opened EdwardsCurve
  import opened EdwardsLaw
  import opened EdwardsGroup
  import opened Ed25519

  const SMALL := Curve(5, 2)

  lemma TwoIsNotASquare(z: int)
    ensures !Zero(5, z * z - 2)
  {
    var r := z % 5;
    ResidueOfProduct(5, z, r);
    ResidueOfProduct(5, z, z);
    assert z * z % 5 == r * r % 5;
    assert r == 0 || r == 1 || r == 2 || r == 3 || r == 4;
  }

  lemma SmallIsValid()
    ensures ValidCurve(SMALL)
  {
    forall z: int ensures !IsRoot(5, z, 2) { TwoIsNotASquare(z); }
  }

  /** The curve has four points. */
  lemma SmallPoints(p: Point)
    requires OnCurve(SMALL, p)
    ensures p in {Point(0, 1), Point(2, 0), Point(0, 4), Point(3, 0)}
  {
    assert p.x == 0 || p.x == 1 || p.x == 2 || p.x == 3 || p.x == 4;
    assert p.y == 0 || p.y == 1 || p.y == 2 || p.y == 3 || p.y == 4;
  }

  function PointAt(i: nat): Point {
    if i % 4 == 0 then Point(0, 1)
    else if i % 4 == 1 then Point(2, 0)
    else if i % 4 == 2 then Point(0, 4)
    else Point(3, 0)
  }

  lemma InvOfOneHere()
    ensures Inv(5, 1) == 1
  {
    assert ExpMod(1, 1, 5) == 1;
  }

  /** They add like the integers modulo 4. */
  lemma SmallSum(i: nat, j: nat)
    ensures Edwards(SMALL, PointAt(i), PointAt(j)) == PointAt(i + j)
  {
    InvOfOneHere();
    hide Inv;
    var p, r := PointAt(i), PointAt(j);
    assert SMALL.d * p.x * r.x * p.y * r.y == 0;
  }

  lemma PointIndex(p: Point) returns (i: nat)
    requires OnCurve(SMALL, p)
    ensures p == PointAt(i)
  {
    SmallPoints(p);
    i := if p == PointAt(0) then 0 else if p == PointAt(1) then 1 else if p == PointAt(2) then 2 else 3;
  }

  lemma SmallIsAssociative()
    ensures Associative(SMALL)
  {
    forall p, r, s ensures AssociatesAt(SMALL, p, r, s) { SmallAssociatesAt(p, r, s); }
  }

  lemma SmallAssociatesAt(p: Point, r: Point, s: Point)
    ensures AssociatesAt(SMALL, p, r, s)
  {
    hide Edwards;
    if OnCurve(SMALL, p) && OnCurve(SMALL, r) && OnCurve(SMALL, s) {
      var i := PointIndex(p);
      var j := PointIndex(r);
      var k := PointIndex(s);
      SmallSum(i, j);
      SmallSum(i + j, k);
      SmallSum(j, k);
      SmallSum(i, j + k);
    }
  }

  lemma SmallOrder()
    ensures Multiple(SMALL, PointAt(1), 4) == NEUTRAL
  {
    hide Edwards;
    SmallSum(0, 1);
    SmallSum(1, 1);
    SmallSum(2, 1);
    SmallSum(3, 1);
    assert Multiple(SMALL, PointAt(1), 1) == Edwards(SMALL, Multiple(SMALL, PointAt(1), 0), PointAt(1));
    assert Multiple(SMALL, PointAt(1), 2) == PointAt(2);
    assert Multiple(SMALL, PointAt(1), 3) == PointAt(3);
  }

  /** The hypotheses of the signature theorems hold of a concrete scheme. */
  lemma WitnessIsValid()
    ensures ValidScheme(Scheme(SMALL, 4, Point(2, 0)))
  {
    SmallIsValid();
    SmallIsAssociative();
    SmallOrder();
    LargePowers();
    BaseOnCurve();
    hide ValidCurve, Associative, Multiple, Pow2, OnCurve;
  }

  lemma BaseOnCurve()
    ensures OnCurve(SMALL, Point(2, 0)) && PointAt(1) == Point(2, 0)
  {}

  lemma LargePowers()
    ensures Pow2(255) > 5 && Pow2(256) > 4
  {
    Pow2Add(3, 252);
    Pow2Add(3, 253);
    assert Pow2(3) == 8;
    hide Pow2;
    assert 8 * Pow2(252) >= 8 && 8 * Pow2(253) >= 8;
  }
}
