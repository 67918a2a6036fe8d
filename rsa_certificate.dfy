/**
 * The certificate program (rsa_certificate.cpp): a trusted authority binds
 * a subject's ID and public exponent into one number, signs it with its
 * private exponent, and a verifier recomputes the binding from the
 * certificate and checks it against the signature raised to the
 * authority's public exponent. Key generation is the loop of rsa.cpp,
 * modelled by Rsa.DeriveKey.
 */
module RsaCertificate {
  import opened NumberTheory
  import opened Ntl
  import opened Wrappers
  import Rsa

  /** The trusted authority's ID, written into every certificate. */
  const IdTA: int := 123456

  /**
   * The binding ID * 10^(NumBits(e) + 1) + e: the ID shifted left by one
   * more decimal digit than e has bits, followed by e.
   */
  function Bind(id: int, e: nat): int
  {
    id * Pow(10, NumBits(e) + 1) + e
  }

  /** Knowing how many bits e has, the binding splits back into the ID and e. */
  lemma BindDecode(id: int, e: nat)
    ensures var m := Pow(10, NumBits(e) + 1);
      m > 0 && Bind(id, e) / m == id && Bind(id, e) % m == e
  {
    var m := Pow(10, NumBits(e) + 1);
    PowPositive(10, NumBits(e) + 1);
    BelowPowerOfTen(e);
    DivModUnique(Bind(id, e), m, id, e);
  }

  /** Bindings with exponents of the same bit length are equal only for equal IDs and exponents. */
  lemma BindInjective(id1: int, e1: nat, id2: int, e2: nat)
    requires NumBits(e1) == NumBits(e2)
    ensures Bind(id1, e1) == Bind(id2, e2) <==> id1 == id2 && e1 == e2
  {
    BindDecode(id1, e1);
    BindDecode(id2, e2);
  }

  /** The binding is nonnegative exactly when the ID is. */
  lemma BindSign(id: int, e: nat)
    ensures 0 <= Bind(id, e) <==> 0 <= id
  {
    var m := Pow(10, NumBits(e) + 1);
    PowPositive(10, NumBits(e) + 1);
    BelowPowerOfTen(e);
    if id < 0 {
      MulMonotone(id, -1, m);
    } else {
      MulNonnegative(id, m);
    }
  }

  /**
   * Without the bit length, the binding is ambiguous: ID 1000001 with
   * exponent 1 and ID 1 with exponent 101 both bind to 100000101.
   */
  lemma BindCollision(id1: int, e1: nat, id2: int, e2: nat)
    requires id1 == 1000001 && e1 == 1 && id2 == 1 && e2 == 101
    ensures Bind(id1, e1) == Bind(id2, e2) == 100000101
  {
    BindOfOne(id1, e1);
    BindOfHundredOne(id2, e2);
  }

  lemma BindOfOne(id: int, e: nat)
    requires e == 1
    ensures Bind(id, e) == id * 100 + 1
  {
    assert NumBits(e) == 1;
    assert Pow(10, 2) == 100;
  }

  lemma BindOfHundredOne(id: int, e: nat)
    requires e == 101
    ensures Bind(id, e) == id * 100000000 + 101
  {
    assert NumBits(e) == 7 by {
      SmallPowers();
      BitLengthIs(e, 7);
    }
    assert Pow(10, 8) == 100000000 by {
      SmallPowers();
    }
    BindWith(id, e, 7, 100000000);
  }

  /** The bit length of x is the r with 2^(r-1) <= x < 2^r. */
  lemma BitLengthIs(x: nat, r: nat)
    requires r > 0 && Pow(2, r - 1) <= x < Pow(2, r)
    ensures NumBits(x) == r
  {
    var k := NumBits(x);
    PowPositive(2, r - 1);
    if k < r {
      if k < r - 1 {
        PowStrictlyIncreasing(2, k, r - 1);
      }
    } else if k > r {
      PowStrictlyIncreasing(2, r, k - 1);
    }
  }

  lemma SmallPowers()
    ensures Pow(2, 0) == 1 && Pow(2, 1) == 2 && Pow(2, 6) == 64 && Pow(2, 7) == 128
    ensures Pow(10, 2) == 100 && Pow(10, 8) == 100000000
  {
    assert Pow(2, 2) == 4;
    assert Pow(2, 4) == 16;
    assert Pow(10, 2) == 100;
    assert Pow(10, 4) == 10000;
    assert Pow(10, 6) == 1000000;
  }

  lemma BindWith(id: int, e: nat, k: nat, m: int)
    requires NumBits(e) == k && Pow(10, k + 1) == m
    ensures Bind(id, e) == id * m + e
  {
  }

  /**
   * The six lines getCRT writes: the subject's ID, exponent and modulus,
   * the authority's signature, the authority's ID and the bit length of
   * the exponent.
   */
  datatype Certificate = Certificate(id: int, e: nat, n: nat, s: int, idTA: int, bits: nat)

  /** getCRT: the certificate of a subject, signed with the authority's exponent sigTA modulo nTA. */
  function Issue(e: nat, n: nat, sigTA: nat, nTA: nat, id: int, idTA: int): (c: Certificate)
    requires nTA > 1
    ensures 0 <= c.s < nTA && c.s == Pow(Bind(id, e), sigTA) % nTA
    ensures c.e == 0 <==> c.bits == 0
    ensures c.e > 0 ==> Pow(2, c.bits - 1) <= c.e < Pow(2, c.bits)
    ensures c.id == id && c.e == e && c.n == n && c.idTA == idTA && c.bits == NumBits(e)
  {
    var b := Bind(id, e);
    var s := PowerMod(b, sigTA, nTA);
    var bits := NumBits(e);
    assert e > 0 ==> Pow(2, bits - 1) <= e < Pow(2, bits);
    Certificate(id, e, n, s, idTA, bits)
  }

  /**
   * verCRT: the certificate is accepted when its signature raised to the
   * authority's public exponent equals the binding of its ID and exponent.
   */
  function Verify(eTA: nat, nTA: nat, c: Certificate): bool
    requires nTA > 1
  {
    PowerMod(c.s, eTA, nTA) == Bind(c.id, c.e)
  }

  /** verCRT on a file: one that cannot be read leaves every field zero. */
  function VerifyFile(eTA: nat, nTA: nat, file: Option<Certificate>): bool
    requires nTA > 1
  {
    Verify(eTA, nTA, if file.Some? then file.value else Certificate(0, 0, 0, 0, 0, 0))
  }

  /** Acceptance means the binding is in [0, nTA) and is the eTA-th power of the signature modulo nTA. */
  lemma VerifyMeaning(eTA: nat, nTA: nat, c: Certificate)
    requires nTA > 1
    ensures Verify(eTA, nTA, c) <==> 0 <= Bind(c.id, c.e) < nTA && Pow(c.s, eTA) % nTA == Bind(c.id, c.e)
  {
  }

  /**
   * A certificate issued with the authority's private exponent verifies
   * with its public exponent whenever the binding lies in [0, nTA).
   */
  lemma IssueVerifyRoundTrip(ta: Rsa.Key, e: nat, n: nat, id: int)
    requires Rsa.ValidKey(ta) && 0 <= Bind(id, e) < ta.n
    ensures Verify(ta.e, ta.n, Issue(e, n, ta.d, ta.n, id, IdTA))
  {
    Rsa.ValidKeySwapped(ta);
  }

  /** A subject with a negative ID, or a binding of at least nTA, is never accepted. */
  lemma OutOfRangeRejected(eTA: nat, nTA: nat, c: Certificate)
    requires nTA > 1 && (c.id < 0 || Bind(c.id, c.e) >= nTA)
    ensures !Verify(eTA, nTA, c)
  {
    BindSign(c.id, c.e);
  }

  /**
   * Verification reads only the ID, the exponent and the signature: the
   * subject's modulus, the authority's ID and the bit length can be
   * anything.
   */
  lemma VerifyIgnoresRest(eTA: nat, nTA: nat, c: Certificate, n: nat, idTA: int, bits: nat)
    requires nTA > 1
    ensures Verify(eTA, nTA, c) == Verify(eTA, nTA, c.(n := n, idTA := idTA, bits := bits))
  {
  }

  /**
   * Because the bit length is not checked, a certificate for ID 1000001
   * with exponent 1 also vouches for ID 1 with exponent 101.
   */
  lemma CollisionForgery(eTA: nat, nTA: nat, c: Certificate)
    requires nTA > 1 && c.id == 1000001 && c.e == 1
    ensures Verify(eTA, nTA, c) == Verify(eTA, nTA, c.(id := 1, e := 101))
  {
    BindCollision(c.id, c.e, 1, 101);
  }

  /** A certificate file that cannot be read is reported valid whenever eTA is at least one. */
  lemma MissingFileReportsValid(eTA: nat, nTA: nat)
    requires nTA > 1 && eTA >= 1
    ensures VerifyFile(eTA, nTA, None)
  {
    PowOfZero(eTA);
    assert NumBits(0) == 0;
  }
}
