/**
 * HexToString of sha1.cpp: a value as a fixed number of uppercase
 * hexadecimal digits, most significant first, and the reading of such a
 * string back as a number. Digit counts are `bv32`, the `int` of the
 * source, and never exceed sixteen, the digits of a 64-bit value.
 */
module Sha1Hex {

  const HexDigits := "0123456789ABCDEF"

  /** The digit of the low four bits. */
  function HexChar(x: bv64): char
  {
    HexDigits[x & 0xF]
  }

  /**
   * The len-digit hexadecimal form of v, most significant digit first: the
   * digits of v shifted right by four bits, then the digit of the low four bits.
   */
  function Hex(v: bv64, len: bv32): string
    requires len <= 16
    decreases len
  {
    if len == 0 then [] else Hex(v >> 4, len - 1) + [HexChar(v)]
  }

  /** Character i of the len digits of v: the digit of v shifted right by 4 * (len - 1 - i) bits. */
  function DigitAt(v: bv64, len: bv32, i: bv32): char
    requires i < len <= 16
  {
    DigitShiftBound(len, i);
    HexDigits[(v >> ((len - 1 - i) * 4)) & 0xF]
  }

  lemma DigitShiftBound(len: bv32, i: bv32)
    requires i < len <= 16
    ensures (len - 1 - i) * 4 < 64
  {
  }

  /** The first i of the len digits of v. */
  function Digits(v: bv64, len: bv32, i: bv32): string
    requires i <= len <= 16
    decreases i
  {
    if i == 0 then [] else Digits(v, len, i - 1) + [DigitAt(v, len, i - 1)]
  }

  /** v without its last len - i digits. */
  function Dropped(v: bv64, len: bv32, i: bv32): bv64
    requires i <= len <= 16
  {
    DroppedShiftBound(len, i);
    v >> ((len - i) * 4)
  }

  lemma DroppedShiftBound(len: bv32, i: bv32)
    requires i <= len <= 16
    ensures (len - i) * 4 <= 64
  {
  }

  lemma DigitAtIsHexChar(v: bv64, len: bv32, i: bv32)
    requires 0 < i <= len <= 16
    ensures DigitAt(v, len, i - 1) == HexChar(Dropped(v, len, i))
  {
  }

  lemma DroppedStep(v: bv64, len: bv32, i: bv32)
    requires 0 < i <= len <= 16
    ensures Dropped(v, len, i) >> 4 == Dropped(v, len, i - 1)
  {
  }

  /** The i-digit form of the value shifted by len - i digits ends in the digit of that shifted value. */
  lemma HexOfDropped(v: bv64, len: bv32, i: bv32)
    requires 0 < i <= len <= 16
    ensures Hex(Dropped(v, len, i), i) == Hex(Dropped(v, len, i - 1), i - 1) + [HexChar(Dropped(v, len, i))]
  {
    DroppedStep(v, len, i);
  }

  /** The first i digits are the i-digit form of v without its last len - i digits. */
  lemma {:induction false} DigitsAreHex(v: bv64, len: bv32, i: bv32)
    requires i <= len <= 16
    ensures Digits(v, len, i) == Hex(Dropped(v, len, i), i)
    decreases i
  {
    if i > 0 {
      DigitsAreHex(v, len, i - 1);
      HexOfDropped(v, len, i);
      DigitAtIsHexChar(v, len, i);
    }
  }

  /**
   * HexToString: appends the len digits one at a time, most significant
   * first. Shifts of 64 or more bits are undefined in C++, so len is at most 16.
   */
  method HexToString(value: bv64, len: bv32) returns (result: string)
    requires len <= 16
    ensures result == Hex(value, len)
  {
    result := [];
    var i: bv32 := 0;
    while i < len
      invariant i <= len
      invariant result == Digits(value, len, i)
    {
      result := result + [DigitAt(value, len, i)];
      i := i + 1;
    }
    DigitsAreHex(value, len, len);
  }

  /** The form has len characters, each one of the sixteen uppercase digits. */
  lemma {:induction false} HexAlphabet(v: bv64, len: bv32)
    requires len <= 16
    ensures |Hex(v, len)| == len as int
    ensures forall k :: 0 <= k < |Hex(v, len)| ==> Hex(v, len)[k] in HexDigits
    decreases len
  {
    if len > 0 {
      HexAlphabet(v >> 4, len - 1);
    }
  }

  /** The position of c among the digits from k on (16 when it is not a digit). */
  function FindDigit(c: char, k: bv64): bv64
    requires k <= 16
    decreases 16 - k
  {
    if k == 16 then 16 else if HexDigits[k] == c then k else FindDigit(c, k + 1)
  }

  function DigitValue(c: char): bv64
  {
    FindDigit(c, 0)
  }

  /** Reads a string of uppercase hexadecimal digits back as a number. */
  function ParseHex(s: string): bv64
  {
    if s == [] then 0 else (ParseHex(s[..|s| - 1]) << 4) | DigitValue(s[|s| - 1])
  }

  lemma {:induction false} FindDigitOf(n: bv64, k: bv64)
    requires k <= n < 16
    ensures FindDigit(HexDigits[n], k) == n
    decreases 16 - k
  {
    if k < n {
      FindDigitOf(n, k + 1);
    }
  }

  lemma DigitValueOfHexChar(x: bv64)
    ensures DigitValue(HexChar(x)) == x & 0xF
  {
    FindDigitOf(x & 0xF, 0);
  }

  /** The low 4 * len bits. */
  function Mask(len: bv32): bv64
    requires len <= 16
  {
    if len == 16 then 0xFFFF_FFFF_FFFF_FFFF else (1 << (4 * len)) - 1
  }

  /** One more digit keeps four more bits. */
  lemma MaskStep(u: bv64, len: bv32)
    requires 0 < len <= 16
    ensures ((((u >> 4) & Mask(len - 1)) << 4) | (u & 0xF)) == u & Mask(len)
  {
  }

  /** Appending a digit shifts the value read so far left by four bits. */
  lemma ParseSnoc(p: string, c: char)
    ensures ParseHex(p + [c]) == (ParseHex(p) << 4) | DigitValue(c)
  {
    assert (p + [c])[..|p|] == p;
  }

  lemma ParseHexOfHex(v: bv64, len: bv32)
    requires 0 < len <= 16
    ensures ParseHex(Hex(v, len)) == (ParseHex(Hex(v >> 4, len - 1)) << 4) | DigitValue(HexChar(v))
  {
    ParseSnoc(Hex(v >> 4, len - 1), HexChar(v));
  }

  /** The digits read back as the low 4 * len bits of the value they were made from. */
  lemma {:induction false} HexRoundTrip(v: bv64, len: bv32)
    requires len <= 16
    ensures ParseHex(Hex(v, len)) == v & Mask(len)
    decreases len
  {
    if len > 0 {
      ParseHexOfHex(v, len);
      HexRoundTrip(v >> 4, len - 1);
      DigitValueOfHexChar(v);
      MaskStep(v, len);
    }
  }

  /** Eight digits are exactly enough for a 32-bit value: they read back as the value itself. */
  lemma HexWordRoundTrip(v: bv64)
    requires v <= 0xFFFF_FFFF
    ensures ParseHex(Hex(v, 8)) == v
  {
    HexRoundTrip(v, 8);
    assert Mask(8) == 0xFFFF_FFFF;
  }
}
