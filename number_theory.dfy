/**
 * Elementary number theory used by the RSA components: powers, modular
 * arithmetic, greatest common divisors with Bezout coefficients, primes,
 * Euclid's lemma, Fermat's little theorem and the textbook RSA identity
 * (v^(e*d) = v modulo p*q when e*d = 1 modulo (p-1)*(q-1)).
 */
module NumberTheory {

  /** b raised to the power e, the reference definition of exponentiation. */
  function Pow(b: int, e: nat): int
  {
    if e == 0 then 1 else b * Pow(b, e - 1)
  }

  lemma {:induction false} PowPositive(b: int, e: nat)
    requires b > 0
    ensures Pow(b, e) > 0
  {
    if e > 0 {
      PowPositive(b, e - 1);
      MulPositive(b, Pow(b, e - 1));
    }
  }

  lemma {:induction false} PowNonnegative(b: int, e: nat)
    requires b >= 0
    ensures Pow(b, e) >= 0
  {
    if e > 0 {
      PowNonnegative(b, e - 1);
      MulNonnegative(b, Pow(b, e - 1));
    }
  }

  lemma {:induction false} PowAdd(b: int, x: nat, y: nat)
    ensures Pow(b, x + y) == Pow(b, x) * Pow(b, y)
  {
    if x > 0 {
      PowAdd(b, x - 1, y);
      MulAssoc(b, Pow(b, x - 1), Pow(b, y));
    }
  }

  lemma {:induction false} PowMul(b: int, x: nat, y: nat)
    ensures Pow(b, x * y) == Pow(Pow(b, x), y)
  {
    if y > 0 {
      calc {
        Pow(b, x * y);
        { assert x * y == x + x * (y - 1); }
        Pow(b, x + x * (y - 1));
        { PowAdd(b, x, x * (y - 1)); }
        Pow(b, x) * Pow(b, x * (y - 1));
        { PowMul(b, x, y - 1); }
        Pow(b, x) * Pow(Pow(b, x), y - 1);
      }
    }
  }

  /** Raising to a power is monotone in the exponent for bases above one. */
  lemma {:induction false} PowStrictlyIncreasing(b: int, x: nat, y: nat)
    requires b > 1 && x < y
    ensures Pow(b, x) < Pow(b, y)
  {
    PowPositive(b, y - 1);
    if x < y - 1 {
      PowStrictlyIncreasing(b, x, y - 1);
    }
    MulStrictlyIncreasing(b, Pow(b, y - 1));
  }

  lemma {:induction false} PowOfOne(e: nat)
    ensures Pow(1, e) == 1
  {
    if e > 0 { PowOfOne(e - 1); }
  }

  lemma {:induction false} PowOfZero(e: nat)
    requires e > 0
    ensures Pow(0, e) == 0
  {
  }

  // ---------------------------------------------------------------------
  // Small facts of non-linear arithmetic, proved once and used by name.

  lemma MulPositive(a: int, b: int)
    requires a > 0 && b > 0
    ensures a * b > 0
  {
  }

  lemma MulNonnegative(a: int, b: int)
    requires a >= 0 && b >= 0
    ensures a * b >= 0
  {
  }

  lemma MulAssoc(a: int, b: int, c: int)
    ensures a * (b * c) == (a * b) * c
  {
  }

  lemma MulStrictlyIncreasing(b: int, x: int)
    requires b > 1 && x > 0
    ensures x < b * x
  {
  }

  lemma MulMonotone(a: int, b: int, c: int)
    requires a <= b && c >= 0
    ensures a * c <= b * c
  {
  }

  /** The quotient and remainder of Euclidean division are unique. */
  lemma DivModUnique(x: int, m: int, q: int, r: int)
    requires m > 0 && 0 <= r < m && x == q * m + r
    ensures x / m == q && x % m == r
  {
    var q', r' := x / m, x % m;
    assert x == q' * m + r';
    assert (q - q') * m == r' - r;
    if q > q' {
      MulMonotone(1, q - q', m);
    } else if q < q' {
      MulMonotone(1, q' - q, m);
    }
  }

  lemma ModAddMultiple(x: int, k: int, m: int)
    requires m > 0
    ensures (x + k * m) % m == x % m
  {
    DivModUnique(x + k * m, m, x / m + k, x % m);
  }

  lemma ModMulLeft(a: int, b: int, m: int)
    requires m > 0
    ensures (a * b) % m == ((a % m) * b) % m
  {
    var q := a / m;
    assert a == q * m + a % m;
    assert a * b == (a % m) * b + (q * b) * m;
    ModAddMultiple((a % m) * b, q * b, m);
  }

  lemma ModMul(a: int, b: int, m: int)
    requires m > 0
    ensures (a * b) % m == ((a % m) * (b % m)) % m
  {
    ModMulLeft(a, b, m);
    ModMulLeft(b, a % m, m);
  }

  lemma ModOfMultiple(k: int, m: int)
    requires m > 0
    ensures (k * m) % m == 0
  {
    ModAddMultiple(0, k, m);
  }

  lemma ModSub(a: int, b: int, m: int)
    requires m > 0 && a % m == b % m
    ensures (a - b) % m == 0
  {
    var qa, qb := a / m, b / m;
    assert a - b == (qa - qb) * m;
    ModOfMultiple(qa - qb, m);
  }

  lemma ModEqFromDiff(a: int, b: int, m: int)
    requires m > 0 && (a - b) % m == 0
    ensures a % m == b % m
  {
    var k := (a - b) / m;
    assert a == b + k * m;
    ModAddMultiple(b, k, m);
  }

  /** Reducing the base modulo m does not change a power modulo m. */
  lemma {:induction false} PowMod(b: int, e: nat, m: int)
    requires m > 0
    ensures Pow(b % m, e) % m == Pow(b, e) % m
  {
    if e > 0 {
      var r, x, y := b % m, Pow(b % m, e - 1), Pow(b, e - 1);
      assert Pow(r, e) == r * x;
      assert Pow(b, e) == b * y;
      PowMod(b, e - 1, m);
      ModMul(r, x, m);
      ModMul(b, y, m);
      ModOfResidue(b, m);
    }
  }

  lemma ModOfResidue(b: int, m: int)
    requires m > 0
    ensures (b % m) % m == b % m
  {
    DivModUnique(b % m, m, 0, b % m);
  }

  /** A power of a residue one is one. */
  lemma {:induction false} PowOfResidueOne(x: int, k: nat, m: int)
    requires m > 1 && x % m == 1
    ensures Pow(x, k) % m == 1
  {
    DivModUnique(1, m, 0, 1);
    if k > 0 {
      var y := Pow(x, k - 1);
      assert Pow(x, k) == x * y;
      PowOfResidueOne(x, k - 1, m);
      ModMul(x, y, m);
    }
  }

  // ---------------------------------------------------------------------
  // Greatest common divisors.

  /** Euclid's algorithm: the reference definition of the gcd of two naturals. */
  function Gcd(a: nat, b: nat): nat
    decreases b
  {
    if b == 0 then a else Gcd(b, a % b)
  }

  /** d divides x (for a positive d). */
  predicate Divides(d: nat, x: int)
    requires d > 0
  {
    x % d == 0
  }

  /**
   * The extended Euclidean algorithm: the gcd of a and b together with
   * Bezout coefficients s and t, so that gcd = s*a + t*b.
   */
  function ExtGcd(a: nat, b: nat): (r: (nat, int, int))
    decreases b
    ensures r.0 == Gcd(a, b)
    ensures r.0 == r.1 * a + r.2 * b
  {
    if b == 0 then (a, 1, 0)
    else
      var (g, s, t) := ExtGcd(b, a % b);
      BezoutStep(a, b, a / b, a % b, s, t, g);
      (g, t, s - (a / b) * t)
  }

  lemma BezoutStep(a: int, b: int, q: int, r: int, s: int, t: int, g: int)
    requires a == q * b + r && g == s * b + t * r
    ensures g == t * a + (s - q * t) * b
  {
    assert t * a == t * (q * b) + t * r;
    assert (s - q * t) * b == s * b - (q * t) * b;
    assert t * (q * b) == (q * t) * b;
  }

  /** The gcd divides both of its arguments. */
  lemma {:induction false} GcdDivides(a: nat, b: nat)
    requires a > 0 || b > 0
    ensures Gcd(a, b) > 0
    ensures Divides(Gcd(a, b), a) && Divides(Gcd(a, b), b)
    decreases b
  {
    if b > 0 {
      GcdDivides(b, a % b);
      var g := Gcd(b, a % b);
      var q, r := a / b, a % b;
      DivModDecompose(a, b);
      DivExact(b, g);
      DivExact(r, g);
      var kb, kr := b / g, r / g;
      CombineMultiples(a, q, 1, b, r, kb, kr, g);
      ModOfMultiple(q * kb + 1 * kr, g);
    } else {
      ModOfMultiple(1, a);
    }
  }

  lemma DivModDecompose(x: int, m: int)
    requires m > 0
    ensures x == (x / m) * m + x % m
  {
  }

  lemma DivExact(x: int, d: int)
    requires d > 0 && x % d == 0
    ensures x == (x / d) * d
  {
    DivModDecompose(x, d);
  }

  /** A linear combination of two multiples of d is a multiple of d. */
  lemma CombineMultiples(g: int, s: int, t: int, a: int, b: int, ka: int, kb: int, d: int)
    requires g == s * a + t * b && a == ka * d && b == kb * d
    ensures g == (s * ka + t * kb) * d
  {
    assert s * a == (s * ka) * d;
    assert t * b == (t * kb) * d;
  }

  /** Every common divisor divides the gcd (so the gcd is the greatest one). */
  lemma GcdGreatest(a: nat, b: nat, d: nat)
    requires d > 0 && Divides(d, a) && Divides(d, b)
    ensures Divides(d, Gcd(a, b))
  {
    var (g, s, t) := ExtGcd(a, b);
    DivExact(a, d);
    DivExact(b, d);
    CombineMultiples(g, s, t, a, b, a / d, b / d, d);
    ModOfMultiple(s * (a / d) + t * (b / d), d);
  }

  /** A positive d whose multiple c*d equals one is one. */
  lemma UnitFactor(c: int, d: int)
    requires d > 0 && c * d == 1
    ensures d == 1
  {
    if c >= 2 {
      MulMonotone(2, c, d);
    } else if c <= 0 {
      MulMonotone(c, 0, d);
    } else {
      assert c == 1;
    }
  }

  /** a has an inverse modulo m only when gcd(a, m) = 1. */
  lemma InverseImpliesCoprime(a: nat, m: nat, y: int)
    requires m > 1 && (a * y) % m == 1
    ensures Gcd(a, m) == 1
  {
    GcdDivides(a, m);
    var g := Gcd(a, m);
    DivExact(a, g);
    DivExact(m, g);
    var ka, km := a / g, m / g;
    var k := (a * y) / m;
    DivModDecompose(a * y, m);
    assert 1 == y * a + (-k) * m;
    CombineMultiples(1, y, -k, a, m, ka, km, g);
    UnitFactor(y * ka + (-k) * km, g);
  }

  // ---------------------------------------------------------------------
  // Primes.

  predicate IsPrime(p: nat)
  {
    p >= 2 && forall k :: 2 <= k < p ==> p % k != 0
  }

  /** A prime shares no factor with a number it does not divide. */
  lemma PrimeCoprime(p: nat, a: int)
    requires IsPrime(p) && a % p != 0
    ensures Gcd(p, a % p) == 1
  {
    var r := a % p;
    GcdDivides(p, r);
    var g := Gcd(p, r);
    if g > r {
      DivModUnique(r, g, 0, r);
    } else if g >= 2 {
      assert false;
    }
  }

  /** Euclid's lemma: a prime dividing a product divides one of the factors. */
  lemma EuclidLemma(p: nat, a: int, b: int)
    requires IsPrime(p) && (a * b) % p == 0
    ensures a % p == 0 || b % p == 0
  {
    if a % p != 0 {
      var r := a % p;
      PrimeCoprime(p, a);
      var (g, s, t) := ExtGcd(p, r);
      ModMulLeft(a, b, p);
      DivExact(r * b, p);
      var k := (r * b) / p;
      CancelByBezout(b, p, r, s, t, k);
      ModOfMultiple(s * b + t * k, p);
    }
  }

  lemma CancelByBezout(b: int, p: int, r: int, s: int, t: int, k: int)
    requires 1 == s * p + t * r && r * b == k * p
    ensures b == (s * b + t * k) * p
  {
    calc {
      b;
      (s * p + t * r) * b;
      (s * b) * p + t * (r * b);
      (s * b) * p + t * (k * p);
      (s * b + t * k) * p;
    }
  }

  /** A prime is not a multiple of another prime. */
  lemma DistinctPrimesIndivisible(p: nat, q: nat)
    requires IsPrime(p) && IsPrime(q) && p != q
    ensures p % q != 0
  {
    if q > p {
      DivModUnique(p, q, 0, p);
    } else {
      assert 2 <= q < p;
    }
  }

  /** Two distinct primes both dividing x means their product divides x. */
  lemma ProductOfDistinctPrimesDivides(p: nat, q: nat, x: int)
    requires IsPrime(p) && IsPrime(q) && p != q
    requires x % p == 0 && x % q == 0
    ensures x % (p * q) == 0
  {
    DivExact(x, p);
    var k := x / p;
    assert (p * k) % q == 0 by {
      assert p * k == k * p;
    }
    EuclidLemma(q, p, k);
    DistinctPrimesIndivisible(p, q);
    DivExact(k, q);
    var j := k / q;
    assert x == j * (p * q) by {
      MulAssoc(j, q, p);
    }
    ModOfMultiple(j, p * q);
  }

  // ---------------------------------------------------------------------
  // Binomial coefficients and Fermat's little theorem.

  /** Pascal's rule: C(n, k). */
  function Binom(n: nat, k: nat): nat
  {
    if k == 0 then 1 else if n == 0 then 0 else Binom(n - 1, k - 1) + Binom(n - 1, k)
  }

  lemma {:induction false} BinomBeyond(n: nat, k: nat)
    requires k > n
    ensures Binom(n, k) == 0
  {
    if n > 0 {
      BinomBeyond(n - 1, k - 1);
      BinomBeyond(n - 1, k);
    }
  }

  /** The absorption identity k*C(n,k) = n*C(n-1,k-1). */
  lemma {:induction false} BinomAbsorption(n: nat, k: nat)
    requires n >= 1 && k >= 1
    ensures k * Binom(n, k) == n * Binom(n - 1, k - 1)
  {
    if n == 1 {
      if k > 1 {
        BinomBeyond(1, k);
        BinomBeyond(0, k - 1);
      }
    } else if k == 1 {
      BinomOne(n);
    } else {
      BinomAbsorption(n - 1, k - 1);
      BinomAbsorption(n - 1, k);
      var x, y := Binom(n - 1, k - 1), Binom(n - 1, k);
      var u, v := Binom(n - 2, k - 2), Binom(n - 2, k - 1);
      assert Binom(n, k) == x + y;
      assert x == u + v;
      AbsorptionRegroup(n, k, x, y, u, v);
    }
  }

  lemma AbsorptionRegroup(n: int, k: int, x: int, y: int, u: int, v: int)
    requires (k - 1) * x == (n - 1) * u && k * y == (n - 1) * v && x == u + v
    ensures k * (x + y) == n * x
  {
    calc {
      k * (x + y);
      (k - 1) * x + x + k * y;
      (n - 1) * u + x + (n - 1) * v;
      (n - 1) * (u + v) + x;
      n * x;
    }
  }

  lemma {:induction false} BinomOne(n: nat)
    ensures Binom(n, 1) == n
  {
    if n > 0 {
      BinomOne(n - 1);
    }
  }

  /** A prime p divides C(p, k) for 0 < k < p. */
  lemma PrimeDividesBinom(p: nat, k: nat)
    requires IsPrime(p) && 0 < k < p
    ensures Binom(p, k) % p == 0
  {
    BinomAbsorption(p, k);
    var c := Binom(p - 1, k - 1);
    assert k * Binom(p, k) == c * p;
    ModOfMultiple(c, p);
    EuclidLemma(p, k, Binom(p, k));
    DivModUnique(k, p, 0, k);
  }

  /** The partial binomial sum: C(n,0) + C(n,1)*x + ... + C(n,j)*x^j. */
  function BinomSum(n: nat, x: int, j: nat): int
  {
    if j == 0 then 1 else BinomSum(n, x, j - 1) + Binom(n, j) * Pow(x, j)
  }

  lemma {:induction false} BinomSumStep(n: nat, x: int, j: nat)
    requires j >= 1
    ensures BinomSum(n + 1, x, j) == BinomSum(n, x, j) + x * BinomSum(n, x, j - 1)
  {
    if j == 1 {
      BinomOne(n + 1);
      BinomOne(n);
      assert Pow(x, 1) == x;
    } else {
      BinomSumStep(n, x, j - 1);
      var a, b := BinomSum(n, x, j - 1), BinomSum(n, x, j - 2);
      var c1, c := Binom(n, j - 1), Binom(n, j);
      var y := Pow(x, j - 1);
      var s1, bj, pj := BinomSum(n + 1, x, j - 1), Binom(n + 1, j), Pow(x, j);
      assert BinomSum(n + 1, x, j) == s1 + bj * pj;
      assert pj == x * y;
      assert bj == c1 + c;
      assert BinomSum(n, x, j) == a + c * pj;
      assert BinomSum(n, x, j - 1) == b + c1 * y;
      PascalRegroup(a, b, x, c1, c, y);
    }
  }

  lemma PascalRegroup(a: int, b: int, x: int, c1: int, c: int, y: int)
    ensures (a + x * b) + (c1 + c) * (x * y) == (a + c * (x * y)) + x * (b + c1 * y)
  {
    assert (c1 + c) * (x * y) == c1 * (x * y) + c * (x * y);
    assert x * (b + c1 * y) == x * b + x * (c1 * y);
    assert c1 * (x * y) == x * (c1 * y);
  }

  lemma {:induction false} BinomSumBeyond(n: nat, x: int, j: nat)
    requires j >= n
    ensures BinomSum(n, x, j) == BinomSum(n, x, n)
  {
    if j > n {
      BinomSumBeyond(n, x, j - 1);
      BinomBeyond(n, j);
    }
  }

  /** The binomial theorem: (x+1)^n = sum of C(n,k)*x^k for k = 0..n. */
  lemma {:induction false} BinomialTheorem(n: nat, x: int)
    ensures Pow(x + 1, n) == BinomSum(n, x, n)
  {
    if n > 0 {
      BinomialTheorem(n - 1, x);
      BinomSumStep(n - 1, x, n);
      BinomSumBeyond(n - 1, x, n);
      var t := BinomSum(n - 1, x, n - 1);
      assert Pow(x + 1, n) == (x + 1) * t;
      assert (x + 1) * t == t + x * t;
    }
  }

  /** All the middle terms of the binomial sum for a prime vanish modulo it. */
  lemma {:induction false} PrimeBinomSumMiddle(p: nat, x: int, j: nat)
    requires IsPrime(p) && j < p
    ensures BinomSum(p, x, j) % p == 1
  {
    if j > 0 {
      PrimeBinomSumMiddle(p, x, j - 1);
      PrimeDividesBinom(p, j);
      MiddleStep(BinomSum(p, x, j - 1), Binom(p, j), Pow(x, j), p);
    }
  }

  /** Adding a multiple of p times anything keeps the residue 1. */
  lemma MiddleStep(s0: int, b: int, y: int, p: int)
    requires p > 0 && s0 % p == 1 && b % p == 0
    ensures (s0 + b * y) % p == 1
  {
    var c := b / p;
    assert b == c * p;
    assert b * y == (c * y) * p;
    ModAddMultiple(s0, c * y, p);
  }

  /** The freshman's dream modulo a prime: (x+1)^p = x^p + 1 (mod p). */
  lemma FreshmansDream(p: nat, x: int)
    requires IsPrime(p)
    ensures Pow(x + 1, p) % p == (Pow(x, p) + 1) % p
  {
    BinomialTheorem(p, x);
    PrimeBinomSumMiddle(p, x, p - 1);
    assert Binom(p, p) == 1 by { BinomDiagonal(p); }
    var s := BinomSum(p, x, p - 1);
    assert Pow(x + 1, p) == s + Pow(x, p);
    var q := s / p;
    assert s == q * p + 1;
    ModAddMultiple(Pow(x, p) + 1, q, p);
  }

  lemma {:induction false} BinomDiagonal(n: nat)
    ensures Binom(n, n) == 1
  {
    if n > 0 {
      BinomDiagonal(n - 1);
      BinomBeyond(n - 1, n);
    }
  }

  /** Fermat's little theorem, first form: x^p = x (mod p) for every natural x. */
  lemma {:induction false} FermatPowP(p: nat, x: nat)
    requires IsPrime(p)
    ensures Pow(x, p) % p == x % p
  {
    if x == 0 {
      PowOfZero(p);
    } else {
      FermatPowP(p, x - 1);
      FreshmansDream(p, x - 1);
      var a := Pow(x - 1, p);
      ModAddMultiple(a + 1, 0, p);
      ModEqFromDiff(a + 1, x, p) by {
        ModSub(a, x - 1, p);
        assert (a + 1) - x == a - (x - 1);
      }
    }
  }

  /** Fermat's little theorem: x^(p-1) = 1 (mod p) when p does not divide x. */
  lemma FermatLittle(p: nat, x: nat)
    requires IsPrime(p) && x % p != 0
    ensures Pow(x, p - 1) % p == 1
  {
    FermatPowP(p, x);
    var y := Pow(x, p - 1);
    assert Pow(x, p) == x * y;
    ModSub(x * y, x, p);
    assert x * y - x == x * (y - 1);
    EuclidLemma(p, x, y - 1);
    ModEqFromDiff(y, 1, p);
    DivModUnique(1, p, 0, 1);
  }

  /** v^k = v (mod p) whenever k = 1 (mod p-1), for a prime p. */
  lemma PowIdentityModPrime(p: nat, v: nat, k: nat)
    requires IsPrime(p) && k >= 1 && (k - 1) % (p - 1) == 0
    ensures Pow(v, k) % p == v % p
  {
    DivExact(k - 1, p - 1);
    var j := (k - 1) / (p - 1);
    var y := Pow(v, k - 1);
    assert Pow(v, k) == v * y;
    ModMulLeft(v, y, p);
    if v % p == 0 {
      assert (v % p) * y == 0;
    } else {
      assert k - 1 == (p - 1) * j;
      PowMul(v, p - 1, j);
      FermatLittle(p, v);
      PowOfResidueOne(Pow(v, p - 1), j, p);
      ModMul(v, y, p);
      ModOfResidue(v, p);
    }
  }

  /** A product of factors minus one, rearranged around either factor. */
  lemma TotientMultiple(k: int, j: int, a: int, b: int)
    requires k == j * (a * b) + 1
    ensures k - 1 == (j * b) * a && k - 1 == (j * a) * b
  {
    MulAssoc(j, a, b);
    MulAssoc(j, b, a);
  }

  /**
   * The RSA identity: for distinct primes p and q and exponents with
   * e*d = 1 modulo (p-1)*(q-1), every v below p*q satisfies
   * v^(e*d) mod p*q = v.
   */
  lemma RsaIdentity(p: nat, q: nat, e: nat, d: nat, v: nat)
    requires IsPrime(p) && IsPrime(q) && p != q
    requires (e * d) % ((p - 1) * (q - 1)) == 1
    requires v < p * q
    ensures Pow(v, e * d) % (p * q) == v
  {
    var phi := (p - 1) * (q - 1);
    MulPositive(p - 1, q - 1);
    var k := e * d;
    MulNonnegative(e, d);
    DivModDecompose(k, phi);
    var j := k / phi;
    assert k == j * phi + 1;
    assert j >= 0;
    MulNonnegative(j, phi);
    TotientMultiple(k, j, p - 1, q - 1);
    ModOfMultiple(j * (q - 1), p - 1);
    ModOfMultiple(j * (p - 1), q - 1);
    PowIdentityModPrime(p, v, k);
    PowIdentityModPrime(q, v, k);
    ModSub(Pow(v, k), v, p);
    ModSub(Pow(v, k), v, q);
    ProductOfDistinctPrimesDivides(p, q, Pow(v, k) - v);
    ModEqFromDiff(Pow(v, k), v, p * q);
    DivModUnique(v, p * q, 0, v);
  }
}
