/**
 * The RSA signature program (rsa_signature.cpp): the SHA-1 digest of a
 * file, read as a hexadecimal number, is signed with the exponent drawn
 * by the key loop and checked with its inverse. The key loop is the one
 * of rsa.cpp and is modelled by Rsa.DeriveKey.
 */
module RsaSignature {
  import opened NumberTheory
  import opened Ntl
  import opened Wrappers
  import Rsa
  import Fips180
  import Sha1
  import Sha1Hex

  // ---------------------------------------------------------------------
  // From digest text to a number

  /** The digit value the signing loop gives a character: c - 'a' + 10 above '9', c - '0' otherwise. */
  function DigitAsWritten(c: char): int
  {
    if c > '9' then (c as int) - ('a' as int) + 10 else (c as int) - ('0' as int)
  }

  /** The intended digit value: the same, except that 'A'..'F' also stand for 10..15. */
  function HexDigitValue(c: char): int
  {
    if 'A' <= c <= 'F' then (c as int) - ('A' as int) + 10 else DigitAsWritten(c)
  }

  /** The number the loop accumulates: starting from msg, each character multiplies by 16 and adds its digit. */
  function Fold(msg: int, s: string, digit: char -> int): int
  {
    if s == [] then msg else Fold(msg, s[..|s| - 1], digit) * 16 + digit(s[|s| - 1])
  }

  /** The digit values of the characters of s, in order. */
  function DigitsOf(s: string, digit: char -> int): (ds: seq<int>)
    ensures |ds| == |s| && forall i :: 0 <= i < |s| ==> ds[i] == digit(s[i])
  {
    seq(|s|, i requires 0 <= i < |s| => digit(s[i]))
  }

  /** The positional value of a digit sequence, most significant first: the sum of ds[i] * 16^(|ds|-1-i). */
  function Positional(ds: seq<int>): int
  {
    if ds == [] then 0 else ds[0] * Pow(16, |ds| - 1) + Positional(ds[1..])
  }

  lemma {:induction false} PositionalSnoc(ds: seq<int>, x: int)
    ensures Positional(ds + [x]) == Positional(ds) * 16 + x
  {
    if ds != [] {
      assert (ds + [x])[1..] == ds[1..] + [x];
      PositionalSnoc(ds[1..], x);
      assert Pow(16, |ds|) == 16 * Pow(16, |ds| - 1);
    }
  }

  /** Starting from zero, the loop computes the positional value of the digits. */
  lemma {:induction false} FoldIsPositional(s: string, digit: char -> int)
    ensures Fold(0, s, digit) == Positional(DigitsOf(s, digit))
  {
    if s != [] {
      var init := s[..|s| - 1];
      FoldIsPositional(init, digit);
      assert DigitsOf(s, digit) == DigitsOf(init, digit) + [digit(s[|s| - 1])];
      PositionalSnoc(DigitsOf(init, digit), digit(s[|s| - 1]));
    }
  }

  /** Digits of at most 15 give a value below 16^|ds|; if all are also nonnegative, the value is too. */
  lemma {:induction false} PositionalBounds(ds: seq<int>)
    requires forall i :: 0 <= i < |ds| ==> ds[i] <= 15
    ensures Positional(ds) < Pow(16, |ds|)
    ensures (forall i :: 0 <= i < |ds| ==> 0 <= ds[i]) ==> 0 <= Positional(ds)
  {
    if ds != [] {
      PositionalBounds(ds[1..]);
      var p := Pow(16, |ds| - 1);
      PowPositive(16, |ds| - 1);
      MulMonotone(ds[0], 15, p);
      assert Pow(16, |ds|) == 16 * p;
      if forall i :: 0 <= i < |ds| ==> 0 <= ds[i] {
        assert forall i :: 0 <= i < |ds| - 1 ==> 0 <= ds[1..][i] by {
          forall i | 0 <= i < |ds| - 1 ensures 0 <= ds[1..][i] {
            assert ds[1..][i] == ds[i + 1];
          }
        }
        MulNonnegative(ds[0], p);
      }
    }
  }

  /** A negative leading digit, with no digit above 15, makes the value negative. */
  lemma NegativeLead(ds: seq<int>)
    requires ds != [] && ds[0] < 0
    requires forall i :: 0 <= i < |ds| ==> ds[i] <= 15
    ensures Positional(ds) < 0
  {
    PositionalBounds(ds[1..]);
    var p := Pow(16, |ds| - 1);
    PowPositive(16, |ds| - 1);
    MulMonotone(ds[0], -1, p);
  }

  /** On '0'..'9' and 'a'..'f' the loop's digit map is the hexadecimal value. */
  lemma LowercaseDigits(c: char)
    requires '0' <= c <= '9' || 'a' <= c <= 'f'
    ensures 0 <= DigitAsWritten(c) < 16
    ensures '0' <= c <= '9' ==> DigitAsWritten(c) == (c as int) - ('0' as int)
    ensures 'a' <= c <= 'f' ==> DigitAsWritten(c) == (c as int) - ('a' as int) + 10
  {
  }

  /**
   * Starting from zero, a string of lowercase hexadecimal digits folds to
   * its base-16 value, most significant digit first, below 16^|s|.
   */
  lemma LowercaseFold(s: string)
    requires forall i :: 0 <= i < |s| ==> '0' <= s[i] <= '9' || 'a' <= s[i] <= 'f'
    ensures Fold(0, s, DigitAsWritten) == Positional(DigitsOf(s, DigitAsWritten))
    ensures 0 <= Fold(0, s, DigitAsWritten) < Pow(16, |s|)
  {
    FoldIsPositional(s, DigitAsWritten);
    var ds := DigitsOf(s, DigitAsWritten);
    forall i | 0 <= i < |ds| ensures 0 <= ds[i] <= 15 {
      LowercaseDigits(s[i]);
    }
    PositionalBounds(ds);
  }

  /** On 'A'..'F', which the SHA-1 routine emits, the loop's digit map gives -22..-17. */
  lemma UppercaseDigits(c: char)
    requires 'A' <= c <= 'F'
    ensures DigitAsWritten(c) == (c as int) - ('A' as int) - 22
    ensures -22 <= DigitAsWritten(c) <= -17
  {
  }

  /** Every character of the SHA-1 alphabet gets an intended value in [0, 16) and a loop value of at most 9. */
  lemma AlphabetDigits(c: char)
    requires c in Sha1Hex.HexDigits
    ensures 0 <= HexDigitValue(c) < 16
    ensures DigitAsWritten(c) <= 9
    ensures DigitAsWritten(c) < 0 <==> 'A' <= c <= 'F'
  {
  }

  /** The forty characters of a digest text all belong to the SHA-1 alphabet. */
  lemma DigestAlphabet(m: seq<Fips180.Byte>)
    ensures |Sha1.DigestHex(m)| == 40
    ensures forall j :: 0 <= j < 40 ==> Sha1.DigestHex(m)[j] in Sha1Hex.HexDigits
  {
    Sha1.DigestHexReadsBack(m, 0);
    forall j | 0 <= j < 40
      ensures Sha1.DigestHex(m)[j] in Sha1Hex.HexDigits
    {
      Sha1.DigestHexReadsBack(m, j / 8);
    }
  }

  /** Read with the intended digit map, a digest is a number in [0, 16^40). */
  lemma DigestNumberIntended(m: seq<Fips180.Byte>)
    ensures 0 <= Fold(0, Sha1.DigestHex(m), HexDigitValue) < Pow(16, 40)
  {
    var s := Sha1.DigestHex(m);
    DigestAlphabet(m);
    FoldIsPositional(s, HexDigitValue);
    var ds := DigitsOf(s, HexDigitValue);
    forall i | 0 <= i < |ds| ensures 0 <= ds[i] <= 15 {
      AlphabetDigits(s[i]);
    }
    PositionalBounds(ds);
  }

  /** Read with the loop's digit map, a digest whose first character is a letter becomes negative. */
  lemma DigestNumberAsWritten(m: seq<Fips180.Byte>)
    requires 'A' <= Sha1.DigestHex(m)[0] <= 'F'
    ensures Fold(0, Sha1.DigestHex(m), DigitAsWritten) < 0
  {
    var s := Sha1.DigestHex(m);
    DigestAlphabet(m);
    FoldIsPositional(s, DigitAsWritten);
    var ds := DigitsOf(s, DigitAsWritten);
    forall i | 0 <= i < |ds| ensures ds[i] <= 15 {
      AlphabetDigits(s[i]);
    }
    UppercaseDigits(s[0]);
    NegativeLead(ds);
  }

  // ---------------------------------------------------------------------
  // Signing and verification

  /**
   * RSA_sign: with no readable file nothing changes; otherwise the digest
   * text of the file's bytes is folded into msg digit by digit and the
   * signature is msg^a mod n.
   */
  method Sign(a: nat, n: nat, file: Option<seq<Fips180.Byte>>, msg0: int, signature0: int)
    returns (msg: int, signature: int)
    requires n > 1
    ensures file.None? ==> msg == msg0 && signature == signature0
    ensures file.Some? ==> msg == Fold(msg0, Sha1.DigestHex(file.value), DigitAsWritten)
    ensures file.Some? ==> signature == PowerMod(msg, a, n) && 0 <= signature < n
  {
    msg, signature := msg0, signature0;
    if file.None? {
      return;
    }
    var message := Sha1.Hash(file.value);
    for i := 0 to |message|
      invariant msg == Fold(msg0, message[..i], DigitAsWritten)
    {
      FoldStep(msg0, message, i, DigitAsWritten);
      msg := msg * 16;
      msg := msg + DigitAsWritten(message[i]);
    }
    assert message[..|message|] == message;
    signature := PowerMod(msg, a, n);
  }

  /** One more character multiplies the value by 16 and adds the character's digit. */
  lemma FoldStep(msg: int, s: string, i: nat, digit: char -> int)
    requires i < |s|
    ensures Fold(msg, s[..i + 1], digit) == Fold(msg, s[..i], digit) * 16 + digit(s[i])
  {
    assert s[..i + 1][..i] == s[..i];
  }

  /** RSA_ver: the signature is accepted when signature^d mod n equals msg. */
  function Verify(d: nat, n: nat, msg: int, signature: int): bool
    requires n > 1
  {
    PowerMod(signature, d, n) == msg
  }

  /** Acceptance means msg is in [0, n) and is the d-th power of the signature modulo n. */
  lemma VerifyMeaning(d: nat, n: nat, msg: int, signature: int)
    requires n > 1
    ensures Verify(d, n, msg, signature) <==> 0 <= msg < n && Pow(signature, d) % n == msg
  {
  }

  /** A signature made with e verifies with d for every msg in [0, n) under a valid key. */
  lemma SignVerifyRoundTrip(k: Rsa.Key, msg: int)
    requires Rsa.ValidKey(k) && 0 <= msg < k.n
    ensures Verify(k.d, k.n, msg, PowerMod(msg, k.e, k.n))
  {
  }

  /**
   * With the intended digit map and a modulus of at least 16^40, the
   * signature of any file's digest verifies under a valid key.
   */
  lemma DigestSignatureVerifies(k: Rsa.Key, m: seq<Fips180.Byte>)
    requires Rsa.ValidKey(k) && Pow(16, 40) <= k.n
    ensures var v := Fold(0, Sha1.DigestHex(m), HexDigitValue);
      Verify(k.d, k.n, v, PowerMod(v, k.e, k.n))
  {
    DigestNumberIntended(m);
    SignVerifyRoundTrip(k, Fold(0, Sha1.DigestHex(m), HexDigitValue));
  }

  /**
   * With the loop's digit map, a file whose digest text starts with a
   * letter gets a negative msg, and no signature verifies against it.
   */
  lemma DigestSignatureRejected(d: nat, n: nat, m: seq<Fips180.Byte>, signature: int)
    requires n > 1 && 'A' <= Sha1.DigestHex(m)[0] <= 'F'
    ensures !Verify(d, n, Fold(0, Sha1.DigestHex(m), DigitAsWritten), signature)
  {
    DigestNumberAsWritten(m);
  }

  /**
   * When the file cannot be opened, signing leaves msg = 0 and the default
   * signature 0, and verification with the derived private exponent
   * reports them valid.
   */
  lemma FailedOpenReportsValid(k: Rsa.Key, p: nat, q: nat)
    requires p >= 2 && q >= 2 && p != q && Rsa.DerivedFrom(k, p, q)
    ensures k.n > 1 && Verify(k.d, k.n, 0, 0)
  {
    Rsa.PrivateExponentPositive(k, p, q);
    MulPositive(p, q);
    MulMonotone(2, p, q);
    PowOfZero(k.d);
  }
}
