/** Arithmetic modulo a prime, up to the two facts Ed25519 rests on: Fermat's little theorem, which makes
    `inv` an inverse, and the value of 2 raised to (q-1)/2, which makes `I` a square root of -1. */
module ModularArithmetic {

  ghost predicate Prime(q: int) {
    q > 1 && forall d :: 1 < d < q ==> q % d != 0
  }

  /** q divides n. */
  predicate Zero(q: int, n: int)
    requires q > 0
  {
    n % q == 0
  }

  // --- divisibility -----------------------------------------------------------------------------

  lemma MultipleIsZero(q: int, k: int)
    requires q > 0
    ensures Zero(q, q * k)
  {
    assert q * k == 0 + k * q;
    ModOfSum(q, 0, k);
  }

  lemma ModOfSum(q: int, r: int, k: int)
    requires 0 <= r < q
    ensures (r + k * q) % q == r
  {
    var n := r + k * q;
    assert n == (n / q) * q + n % q;
    var j := n / q - k;
    assert j * q == r - n % q by {
      assert j * q == (n / q) * q - k * q;
    }
    assert j > 0 ==> j * q >= q;
    assert j < 0 ==> j * q <= -q;
  }

  lemma ZeroQuotient(q: int, n: int)
    requires q > 0 && Zero(q, n)
    ensures n == q * (n / q)
  {}

  lemma ZeroSum(q: int, a: int, b: int)
    requires q > 0 && Zero(q, a) && Zero(q, b)
    ensures Zero(q, a + b) && Zero(q, a - b)
  {
    ZeroQuotient(q, a);
    ZeroQuotient(q, b);
    MultipleIsZero(q, a / q + b / q);
    MultipleIsZero(q, a / q - b / q);
    assert a + b == q * (a / q + b / q);
    assert a - b == q * (a / q - b / q);
  }

  lemma ZeroProduct(q: int, a: int, b: int)
    requires q > 0 && Zero(q, a)
    ensures Zero(q, a * b) && Zero(q, b * a)
  {
    ZeroQuotient(q, a);
    MultipleIsZero(q, a / q * b);
    assert a * b == q * (a / q * b);
  }

  /** A linear combination of multiples of q is a multiple of q. */
  lemma ZeroCombination(q: int, a: int, f: int, b: int, g: int)
    requires q > 0 && Zero(q, a) && Zero(q, b)
    ensures Zero(q, a * f + b * g)
  {
    ZeroProduct(q, a, f);
    ZeroProduct(q, b, g);
    ZeroSum(q, a * f, b * g);
  }

  lemma ResidueDifference(q: int, n: int)
    requires q > 0
    ensures Zero(q, n - n % q) && Zero(q, n % q - n) && 0 <= n % q < q
  {
    MultipleIsZero(q, n / q);
    MultipleIsZero(q, -(n / q));
    assert n - n % q == q * (n / q);
    assert n % q - n == q * -(n / q);
  }

  lemma SameResidue(q: int, a: int, b: int)
    requires q > 0
    ensures Zero(q, a - b) <==> a % q == b % q
  {
    ResidueDifference(q, a);
    ResidueDifference(q, b);
    if Zero(q, a - b) {
      ZeroQuotient(q, a - b);
      var k := (a - b) / q;
      assert a == b % q + (b / q + k) * q by {
        assert (b / q + k) * q == b / q * q + k * q;
      }
      ModOfSum(q, b % q, b / q + k);
    }
    if a % q == b % q {
      ZeroSum(q, a - a % q, b - b % q);
    }
  }

  lemma SmallZero(q: int, n: int)
    requires q > 0 && -q < n < q
    ensures Zero(q, n) <==> n == 0
  {
    if Zero(q, n) {
      ZeroQuotient(q, n);
      var k := n / q;
      assert k > 0 ==> q * k >= q;
      assert k < 0 ==> q * k <= -q;
    }
  }

  lemma ResidueOfProduct(q: int, a: int, b: int)
    requires q > 0
    ensures (a % q) * b % q == a * b % q
    ensures a * (b % q) % q == a * b % q
  {
    ResidueDifference(q, a);
    ResidueDifference(q, b);
    ZeroProduct(q, a - a % q, b);
    assert (a - a % q) * b == a * b - (a % q) * b;
    SameResidue(q, a * b, (a % q) * b);
    ZeroProduct(q, b - b % q, a);
    assert a * (b - b % q) == a * b - a * (b % q);
    SameResidue(q, a * b, a * (b % q));
  }

  // --- Euclid's lemma ---------------------------------------------------------------------------

  lemma {:induction false} EuclidSmall(q: int, a: int, b: int)
    requires Prime(q) && 0 < a < q && Zero(q, a * b)
    ensures Zero(q, b)
    decreases a
  {
    if a > 1 {
      var k, r := q / a, q % a;
      assert r * b == q * b - (a * b) * k by {
        assert q == a * k + r;
        assert (a * k + r) * b == (a * b) * k + r * b;
      }
      MultipleIsZero(q, b);
      ZeroProduct(q, a * b, k);
      ZeroSum(q, q * b, (a * b) * k);
      EuclidSmall(q, r, b);
    }
  }

  /** A prime that divides a product divides one of its factors. */
  lemma Euclid(q: int, a: int, b: int)
    requires Prime(q) && Zero(q, a * b)
    ensures Zero(q, a) || Zero(q, b)
  {
    if !Zero(q, a) {
      ResidueDifference(q, a);
      ResidueOfProduct(q, a, b);
      EuclidSmall(q, a % q, b);
    }
  }

  // --- powers -----------------------------------------------------------------------------------

  function Pow(b: int, e: nat): int {
    if e == 0 then 1 else b * Pow(b, e - 1)
  }

  lemma {:induction false} PowAdd(b: int, m: nat, n: nat)
    ensures Pow(b, m + n) == Pow(b, m) * Pow(b, n)
  {
    if m > 0 {
      PowAdd(b, m - 1, n);
      assert b * (Pow(b, m - 1) * Pow(b, n)) == (b * Pow(b, m - 1)) * Pow(b, n);
    }
  }

  lemma {:induction false} PowMul(b: int, m: nat, n: nat)
    ensures m * n >= 0 && Pow(Pow(b, m), n) == Pow(b, m * n)
  {
    if n > 0 {
      PowMul(b, m, n - 1);
      assert m * n == m + m * (n - 1);
      PowAdd(b, m, m * (n - 1));
    }
  }

  /** Bases with the same residue have powers with the same residue. */
  lemma {:induction false} PowResidue(q: int, a: int, b: int, n: nat)
    requires q > 0 && a % q == b % q
    ensures Pow(a, n) % q == Pow(b, n) % q
  {
    if n > 0 {
      PowResidue(q, a, b, n - 1);
      var x, y := Pow(a, n - 1), Pow(b, n - 1);
      ResidueOfProduct(q, a, x);
      ResidueOfProduct(q, b, x);
      ResidueOfProduct(q, b, y);
      ResidueOfProduct(q, b, x);
      assert b * (x % q) == b * (y % q);
    }
  }

  // --- products over a permutation of 1..n ------------------------------------------------------

  function Product(f: int -> int, n: nat): int {
    if n == 0 then 1 else f(n) * Product(f, n - 1)
  }

  ghost function SetProduct(s: set<int>): int {
    if s == {} then 1 else Pick(s) * SetProduct(s - {Pick(s)})
  }

  ghost function Pick<T>(s: set<T>): T
    requires s != {}
  {
    var x :| x in s; x
  }

  lemma {:induction false} SetProductPick(s: set<int>, y: int)
    requires y in s
    ensures SetProduct(s) == y * SetProduct(s - {y})
    decreases s
  {
    var x := Pick(s);
    if x != y {
      SetProductPick(s - {x}, y);
      SetProductPick(s - {y}, x);
      assert s - {x} - {y} == s - {y} - {x};
      var z := SetProduct(s - {x} - {y});
      assert x * (y * z) == y * (x * z);
    }
  }

  ghost predicate Permutes(f: int -> int, n: nat) {
    && (forall i :: 1 <= i <= n ==> 1 <= f(i) <= n)
    && (forall i, j :: 1 <= i < j <= n ==> f(i) != f(j))
  }

  ghost function Image(f: int -> int, n: nat): set<int> {
    set i | 1 <= i <= n :: f(i)
  }

  lemma {:induction false} ProductIsSetProduct(f: int -> int, n: nat)
    requires forall i, j :: 1 <= i < j <= n ==> f(i) != f(j)
    ensures Product(f, n) == SetProduct(Image(f, n)) && |Image(f, n)| == n
  {
    hide SetProduct;
    if n > 0 {
      ProductIsSetProduct(f, n - 1);
      ImageWithout(f, n);
      hide Image;
      SetProductPick(Image(f, n), f(n));
    } else {
      assert Image(f, n) == {};
      EmptyProduct(Image(f, n));
    }
  }

  lemma ImageWithout(f: int -> int, n: nat)
    requires n > 0 && forall i, j :: 1 <= i < j <= n ==> f(i) != f(j)
    ensures f(n) in Image(f, n) && Image(f, n) - {f(n)} == Image(f, n - 1)
  {}

  lemma EmptyProduct(s: set<int>)
    requires s == {}
    ensures SetProduct(s) == 1
  {}

  lemma SubsetOfEqualSize(a: set<int>, b: set<int>)
    requires a <= b && |a| == |b|
    ensures a == b
  {
    assert |b - a| == |b| - |a|;
  }

  function Identity(i: int): int { i }

  /** Multiplying the values of a permutation of 1..n gives n factorial. */
  lemma PermutedProduct(f: int -> int, n: nat)
    requires Permutes(f, n)
    ensures Product(f, n) == Product(Identity, n)
  {
    ProductIsSetProduct(f, n);
    ProductIsSetProduct(Identity, n);
    forall y | y in Image(f, n) ensures y in Image(Identity, n) {
      assert Identity(y) == y;
    }
    SubsetOfEqualSize(Image(f, n), Image(Identity, n));
  }

  lemma {:induction false} FactorialNotZero(q: int, n: nat)
    requires Prime(q) && n < q
    ensures !Zero(q, Product(Identity, n))
  {
    if n == 0 {
      SmallZero(q, 1);
    } else {
      FactorialNotZero(q, n - 1);
      SmallZero(q, n);
      if Zero(q, Product(Identity, n)) {
        Euclid(q, n, Product(Identity, n - 1));
      }
    }
  }

  lemma SwapInner(y: int, z: int, c: int, g: int)
    ensures (y * z) * (c * g) == (c * y) * (g * z)
  {}

  lemma Telescope(q: int, f: int, u: int, x: int, w: int)
    requires q > 0 && Zero(q, f - u) && Zero(q, x - w)
    ensures Zero(q, f * x - w * u)
  {
    ZeroCombination(q, f - u, x, x - w, u);
    assert (f - u) * x + (x - w) * u == f * x - w * u;
  }

  lemma TelescopeProducts(q: int, f: int, c: int, g: int, x: int, y: int, z: int)
    requires q > 0 && Zero(q, f - c * g) && Zero(q, x - y * z)
    ensures Zero(q, f * x - (c * y) * (g * z))
  {
    Telescope(q, f, c * g, x, y * z);
    SwapInner(y, z, c, g);
  }

  /** If every f(i) is the product c(i) * g(i) up to a multiple of q, so are the products. */
  lemma {:induction false} ProductOfProducts(q: int, f: int -> int, c: int -> int, g: int -> int, n: nat)
    requires q > 0 && forall i :: 1 <= i <= n ==> Zero(q, f(i) - c(i) * g(i))
    ensures Zero(q, Product(f, n) - Product(c, n) * Product(g, n))
  {
    if n > 0 {
      hide Zero;
      ProductOfProducts(q, f, c, g, n - 1);
      TelescopeProducts(q, f(n), c(n), g(n), Product(f, n - 1), Product(c, n - 1), Product(g, n - 1));
    }
  }

  function Constant(c: int): int -> int {
    i => c
  }

  lemma {:induction false} ProductOfConstant(c: int, n: nat)
    ensures Product(Constant(c), n) == Pow(c, n)
  {
    if n > 0 {
      ProductOfConstant(c, n - 1);
    }
  }

  /** A factor prime to q can be cancelled. */
  lemma Cancel(q: int, a: int, b: int, c: int)
    requires Prime(q) && !Zero(q, c) && Zero(q, a * c - b * c)
    ensures Zero(q, a - b)
  {
    assert a * c - b * c == c * (a - b);
    Euclid(q, c, a - b);
  }

  lemma CancelFactorial(q: int, t: int, k: int, p: int)
    requires Prime(q) && !Zero(q, p) && Zero(q, k - -t) && Zero(q, p - k * p)
    ensures Zero(q, t + 1)
  {
    ZeroProduct(q, k - -t, p);
    ZeroSum(q, (k - -t) * p, p - k * p);
    assert (k - -t) * p + (p - k * p) == t * p - -1 * p;
    Cancel(q, t, -1, p);
  }

  function Multiples(q: int, a: int): int -> int
    requires q > 0
  {
    i => a * i % q
  }

  lemma MultiplesPermute(q: int, a: int)
    requires Prime(q) && !Zero(q, a)
    ensures Permutes(Multiples(q, a), q - 1)
  {
    var f := Multiples(q, a);
    forall i | 1 <= i <= q - 1 ensures 1 <= f(i) <= q - 1 {
      ResidueDifference(q, a * i);
      SmallZero(q, i);
      if Zero(q, a * i) { Euclid(q, a, i); }
    }
    forall i, j | 1 <= i < j <= q - 1 ensures f(i) != f(j) {
      if f(i) == f(j) {
        SameResidue(q, i * a, j * a);
        Cancel(q, i, j, a);
        SmallZero(q, i - j);
      }
    }
  }

  lemma ScaledFactorial(q: int, a: int)
    requires Prime(q) && !Zero(q, a)
    ensures Zero(q, Product(Identity, q - 1) - Pow(a, q - 1) * Product(Identity, q - 1))
  {
    var n := q - 1;
    forall i | 1 <= i <= n ensures Zero(q, Multiples(q, a)(i) - Constant(a)(i) * Identity(i)) {
      ResidueDifference(q, a * i);
    }
    ProductOfProducts(q, Multiples(q, a), Constant(a), Identity, n);
    MultiplesPermute(q, a);
    PermutedProduct(Multiples(q, a), n);
    ProductOfConstant(a, n);
  }

  /** Fermat's little theorem. */
  lemma Fermat(q: int, a: int)
    requires Prime(q) && !Zero(q, a)
    ensures Zero(q, Pow(a, q - 1) - 1)
  {
    var t, p := Pow(a, q - 1), Product(Identity, q - 1);
    ScaledFactorial(q, a);
    FactorialNotZero(q, q - 1);
    SmallZero(q, 0);
    CancelFactorial(q, -t, t, p);
    ZeroProduct(q, -t + 1, -1);
    assert (-t + 1) * -1 == t - 1;
  }

  /** The signs met when 2, 4, ..., q-1 are folded into 1..(q-1)/2: minus for every i above h/2. */
  function FoldSign(h: int): int -> int {
    i => if 2 * i <= h then 1 else -1
  }

  lemma {:induction false} FoldSignProduct(h: int, n: nat)
    requires h >= 0
    ensures Product(FoldSign(h), n) == if n <= h / 2 then 1 else Pow(-1, n - h / 2)
  {
    if n > 0 {
      FoldSignProduct(h, n - 1);
    }
  }

  lemma {:induction false} PowMinusOne(n: nat)
    ensures Pow(-1, n) == if n % 2 == 0 then 1 else -1
  {
    if n > 0 {
      PowMinusOne(n - 1);
    }
  }

  lemma FoldSignIsMinus(q: int)
    requires q > 0 && q % 8 == 5
    ensures Product(FoldSign((q - 1) / 2), (q - 1) / 2) == -1
  {
    var h := (q - 1) / 2;
    FoldSignProduct(h, h);
    PowMinusOne(h - h / 2);
  }

  function Fold(q: int): int -> int {
    i => if 4 * i < q then 2 * i else q - 2 * i
  }

  lemma FoldPermutes(q: int)
    requires q > 0 && q % 2 == 1
    ensures Permutes(Fold(q), (q - 1) / 2)
  {}

  function FoldFactor(h: int): int -> int {
    i => 2 * FoldSign(h)(i)
  }

  lemma FoldedFactor(q: int, h: int, i: int)
    requires q == 2 * h + 1 && 1 <= i <= h
    ensures Zero(q, Fold(q)(i) - FoldFactor(h)(i) * Identity(i))
  {
    SmallZero(q, 0);
    ModOfSum(q, 0, 1);
    assert FoldSign(h)(i) == if 2 * i <= h then 1 else -1;
    assert FoldFactor(h)(i) * i == if 4 * i < q then 2 * i else -2 * i;
  }

  lemma FoldedFactorial(q: int)
    requires Prime(q) && q % 2 == 1
    ensures var n := (q - 1) / 2;
            Zero(q, Product(Identity, n) - Product(FoldFactor(n), n) * Product(Identity, n))
  {
    var h := (q - 1) / 2;
    forall i | 1 <= i <= h ensures Zero(q, Fold(q)(i) - FoldFactor(h)(i) * Identity(i)) { FoldedFactor(q, h, i); }
    hide Zero, Prime;
    ProductOfProducts(q, Fold(q), FoldFactor(h), Identity, h);
    FoldPermutes(q);
    PermutedProduct(Fold(q), h);
  }

  lemma {:induction false} FoldFactorProduct(h: int, n: nat)
    ensures Product(FoldFactor(h), n) == Pow(2, n) * Product(FoldSign(h), n)
  {
    if n > 0 {
      FoldFactorProduct(h, n - 1);
      var x, y, z := FoldSign(h)(n), Pow(2, n - 1), Product(FoldSign(h), n - 1);
      assert (2 * x) * (y * z) == (2 * y) * (x * z);
    }
  }

  /** For a prime q that leaves 5 modulo 8, 2 is not a square: 2^((q-1)/2) is -1 modulo q. */
  lemma TwoIsNonResidue(q: int)
    requires Prime(q) && q % 8 == 5
    ensures Zero(q, Pow(2, (q - 1) / 2) + 1)
  {
    var h := (q - 1) / 2;
    FoldedFactorial(q);
    FoldFactorProduct(h, h);
    FoldSignIsMinus(q);
    FactorialNotZero(q, h);
    SmallZero(q, 0);
    CancelFactorial(q, Pow(2, h), Product(FoldFactor(h), h), Product(Identity, h));
  }
}
