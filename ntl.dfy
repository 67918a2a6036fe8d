/**
 * The NTL big-integer routines the RSA programs call, specified over
 * mathematical integers: PowerMod, InvModStatus, NumBits, ZZFromBytes and
 * BytesFromZZ. Each is given a definition of its own and proved against
 * the number-theoretic meaning it has in NTL's documentation.
 */
module Ntl {
  import opened NumberTheory

  /** An `unsigned char` read from or written to a file. */
  type Byte = b: int | 0 <= b < 256

  // ---------------------------------------------------------------------
  // PowerMod

  /**
   * PowerMod(a, e, n): a^e mod n, computed by square-and-multiply. The
   * result is the residue of the power in [0, n), also for a base outside
   * that range.
   */
  function PowerMod(a: int, e: nat, n: nat): (r: nat)
    requires n > 1
    ensures r == Pow(a, e) % n
    ensures r < n
    decreases e
  {
    if e == 0 then
      1
    else if e % 2 == 0 then
      var h := PowerMod(a, e / 2, n);
      SquareStep(a, e, n, h);
      (h * h) % n
    else
      var h := PowerMod(a, e - 1, n);
      MultiplyStep(a, e, n, h);
      (h * a) % n
  }

  lemma SquareStep(a: int, e: nat, n: nat, h: int)
    requires n > 1 && e > 0 && e % 2 == 0 && h == Pow(a, e / 2) % n
    ensures (h * h) % n == Pow(a, e) % n
  {
    PowAdd(a, e / 2, e / 2);
    assert e / 2 + e / 2 == e;
    ModMul(Pow(a, e / 2), Pow(a, e / 2), n);
    ModOfResidue(Pow(a, e / 2), n);
    ModMul(h, h, n);
  }

  lemma MultiplyStep(a: int, e: nat, n: nat, h: int)
    requires n > 1 && e > 0 && h == Pow(a, e - 1) % n
    ensures (h * a) % n == Pow(a, e) % n
  {
    assert Pow(a, e) == a * Pow(a, e - 1);
    ModMulLeft(Pow(a, e - 1), a, n);
  }

  /** Two PowerMods in a row raise to the product of the exponents. */
  lemma PowerModTwice(v: int, e: nat, d: nat, n: nat)
    requires n > 1
    ensures PowerMod(PowerMod(v, e, n), d, n) == Pow(v, e * d) % n
  {
    PowMod(Pow(v, e), d, n);
    PowMul(v, e, d);
  }

  // ---------------------------------------------------------------------
  // InvModStatus

  /**
   * InvModStatus(a, m): status 0 and the inverse of a modulo m in [0, m)
   * when gcd(a, m) = 1; otherwise status 1 and gcd(a, m). Computed with
   * the extended Euclidean algorithm.
   */
  function InvModStatus(a: nat, m: nat): (r: (nat, nat))
    requires m >= 1
    ensures r.0 == 0 <==> Gcd(a, m) == 1
    ensures r.0 == 0 ==> r.1 < m && (a * r.1) % m == 1 % m
    ensures r.0 != 0 ==> r.0 == 1 && r.1 == Gcd(a, m)
  {
    var (g, s, t) := ExtGcd(a, m);
    if g == 1 then
      InverseFromBezout(a, m, s, t);
      (0, s % m)
    else
      (1, g)
  }

  lemma InverseFromBezout(a: nat, m: nat, s: int, t: int)
    requires m >= 1 && s * a + t * m == 1
    ensures (a * (s % m)) % m == 1 % m
  {
    var r := s % m;
    ModMulLeft(s, a, m);
    assert (s * a) % m == (r * a) % m;
    assert a * r == r * a;
    assert s * a == 1 + (-t) * m;
    ModAddMultiple(1, -t, m);
  }

  /** When InvModStatus reports failure, a has no inverse modulo m at all. */
  lemma NoInverseOnFailure(a: nat, m: nat, y: int)
    requires m > 1 && InvModStatus(a, m).0 != 0
    ensures (a * y) % m != 1
  {
    if (a * y) % m == 1 {
      InverseImpliesCoprime(a, m, y);
    }
  }

  // ---------------------------------------------------------------------
  // NumBits

  /** NumBits(x): the number of bits of x, 0 for x = 0. */
  function NumBits(x: nat): (r: nat)
    ensures x == 0 <==> r == 0
    ensures x > 0 ==> Pow(2, r - 1) <= x < Pow(2, r)
  {
    if x == 0 then 0
    else
      var r := 1 + NumBits(x / 2);
      NumBitsStep(x, r - 1);
      r
  }

  lemma NumBitsStep(x: nat, k: nat)
    requires x > 0
    requires x / 2 == 0 ==> k == 0
    requires x / 2 > 0 ==> k > 0 && Pow(2, k - 1) <= x / 2 < Pow(2, k)
    ensures Pow(2, k) <= x < Pow(2, k + 1)
  {
    assert Pow(2, k + 1) == 2 * Pow(2, k);
    if k > 0 {
      assert Pow(2, k) == 2 * Pow(2, k - 1);
    }
  }

  /** x is below 2^NumBits(x), so a fortiori below 10^(NumBits(x) + 1). */
  lemma {:induction false} BelowPowerOfTen(x: nat)
    ensures x < Pow(10, NumBits(x) + 1)
  {
    var k := NumBits(x);
    if x > 0 {
      TwoBelowTen(k);
    }
    assert Pow(10, k + 1) == 10 * Pow(10, k);
    PowPositive(10, k);
  }

  lemma {:induction false} TwoBelowTen(k: nat)
    ensures Pow(2, k) <= Pow(10, k)
  {
    if k > 0 {
      TwoBelowTen(k - 1);
      PowPositive(2, k - 1);
    }
  }

  // ---------------------------------------------------------------------
  // ZZFromBytes and BytesFromZZ

  /** ZZFromBytes(b, |b|): the bytes read little-endian, the sum of b[i] * 256^i. */
  function ZZFromBytes(b: seq<Byte>): (r: nat)
    ensures r < Pow(256, |b|)
  {
    if b == [] then 0
    else
      var rest := ZZFromBytes(b[1..]);
      assert Pow(256, |b|) == 256 * Pow(256, |b| - 1);
      b[0] + 256 * rest
  }

  /** BytesFromZZ(x, k): the k least significant bytes of x, least significant first. */
  function BytesFromZZ(x: nat, k: nat): (r: seq<Byte>)
    ensures |r| == k
  {
    if k == 0 then [] else [x % 256] + BytesFromZZ(x / 256, k - 1)
  }

  /** Writing back as many bytes as were read returns the bytes read. */
  lemma {:induction false} BytesRoundTrip(b: seq<Byte>)
    ensures BytesFromZZ(ZZFromBytes(b), |b|) == b
  {
    if b != [] {
      var x := ZZFromBytes(b);
      DivModUnique(x, 256, ZZFromBytes(b[1..]), b[0]);
      BytesRoundTrip(b[1..]);
      assert b == [b[0]] + b[1..];
    }
  }

  /** Reading back k written bytes gives x modulo 256^k. */
  lemma {:induction false} ZZRoundTrip(x: nat, k: nat)
    ensures Pow(256, k) > 0 && ZZFromBytes(BytesFromZZ(x, k)) == x % Pow(256, k)
  {
    PowPositive(256, k);
    if k > 0 {
      var b := BytesFromZZ(x, k);
      assert b[1..] == BytesFromZZ(x / 256, k - 1);
      ZZRoundTrip(x / 256, k - 1);
      PowPositive(256, k - 1);
      var m := Pow(256, k - 1);
      assert Pow(256, k) == 256 * m;
      ModOfDiv(x, m);
    }
  }

  /** x mod 256m is its last byte plus 256 times (x div 256) mod m. */
  lemma ModOfDiv(x: nat, m: nat)
    requires m > 0
    ensures x % (256 * m) == x % 256 + 256 * ((x / 256) % m)
  {
    var q := (x / 256) / m;
    var r := x % 256 + 256 * ((x / 256) % m);
    assert x == 256 * (x / 256) + x % 256;
    assert x / 256 == q * m + (x / 256) % m;
    assert x == q * (256 * m) + r;
    DivModUnique(x, 256 * m, q, r);
  }
}
