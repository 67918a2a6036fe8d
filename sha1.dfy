/**
 * The SHA-1 implementation of sha1.cpp. The source keeps every 32-bit
 * word in a `long long` and masks by hand; here such a value is its 64-bit
 * two's-complement bit pattern (`bv64`), and each piece is proved against
 * the FIPS 180-4 definitions of module Fips180 over `bv32`.
 *
 * The word load of sha1.cpp:87-90 is modelled twice: `LoadWord` is the
 * unsigned big-endian load the code evidently intends and that `Hash`
 * uses; `LoadWordAsWritten` is what the code computes, where the first byte
 * is promoted to a signed `int`, shifted into its sign bit and then
 * sign-extended into the `long long`.
 */
module Sha1 {
  import Fips180
  import Sha1Hex

  type Word = Fips180.Word
  type Byte = Fips180.Byte

  /*
   * ----- ROLT, K and f (sha1.cpp:26-51) -----
   */

  /**
   * `>>` on a signed `long long`: an arithmetic shift that copies the sign
   * bit into the vacated positions.
   */
  function Asr(x: bv64, s: bv32): bv64
    requires s < 64
  {
    if x & 0x8000_0000_0000_0000 == 0 then x >> s else !((!x) >> s)
  }

  /**
   * ROLT: shifts left, ors in the (arithmetic) right shift by 32 - bits and
   * keeps the low 32 bits. The result is always a 32-bit value, and on a
   * 32-bit input it is ROTL of FIPS 180-4 section 3.2.
   */
  function Rolt(value: bv64, bits: bv32): (r: bv64)
    requires 0 < bits < 32
    ensures r <= 0xFFFF_FFFF
    ensures value <= 0xFFFF_FFFF ==> r == Fips180.Rotl(value as Word, bits) as bv64
  {
    ((value << bits) | Asr(value, 32 - bits)) & 0xFFFF_FFFF
  }

  /**
   * The round constant: the four constants of FIPS 180-4 section 4.2.1 for
   * rounds 0..79; every negative round number falls into the first test and
   * gets the first constant, and rounds from 80 on get 0.
   */
  function K(t: int): (r: bv64)
    ensures 0 <= t < 80 ==> r == Fips180.K(t) as bv64
    ensures t < 0 ==> r == Fips180.K(0) as bv64
    ensures 80 <= t ==> r == 0
  {
    if t <= 19 then 0x5A827999
    else if t <= 39 then 0x6ED9EBA1
    else if t <= 59 then 0x8F1BBCDC
    else if t <= 79 then 0xCA62C1D6
    else 0
  }

  /** The round function f, with the complement `~B` taken on the full 64-bit word. */
  function F(b: bv64, c: bv64, d: bv64, t: int): bv64
  {
    if t < 20 then (b & c) | (!b & d)
    else if t < 40 then b ^ c ^ d
    else if t < 60 then (b & c) | (b & d) | (c & d)
    else b ^ c ^ d
  }

  lemma FFirst(b: bv64, c: bv64, d: bv64, t: int)
    requires t < 20
    ensures F(b, c, d, t) == (b & c) | (!b & d)
  {
  }

  lemma FMiddle(b: bv64, c: bv64, d: bv64, t: int)
    requires 40 <= t < 60
    ensures F(b, c, d, t) == (b & c) | (b & d) | (c & d)
  {
  }

  lemma FXor(b: bv64, c: bv64, d: bv64, t: int)
    requires 20 <= t < 40 || 60 <= t
    ensures F(b, c, d, t) == b ^ c ^ d
  {
  }

  lemma SpecCh(x: Word, y: Word, z: Word, t: int)
    requires 0 <= t < 20
    ensures Fips180.F(t, x, y, z) == Fips180.Ch(x, y, z)
  {
  }

  lemma SpecMaj(x: Word, y: Word, z: Word, t: int)
    requires 40 <= t < 60
    ensures Fips180.F(t, x, y, z) == Fips180.Maj(x, y, z)
  {
  }

  lemma SpecParity(x: Word, y: Word, z: Word, t: int)
    requires 20 <= t < 40 || 60 <= t < 80
    ensures Fips180.F(t, x, y, z) == Fips180.Parity(x, y, z)
  {
  }

  /** On zero-extended words, `(B & C) | (~B & D)` is Ch: the two halves never share a bit. */
  lemma ChByOr(x: Word, y: Word, z: Word)
    ensures (x as bv64 & y as bv64) | (!(x as bv64) & z as bv64) == Fips180.Ch(x, y, z) as bv64
  {
  }

  /** On zero-extended words, the or of the three pairwise ands is Maj. */
  lemma MajByOr(x: Word, y: Word, z: Word)
    ensures (x as bv64 & y as bv64) | (x as bv64 & z as bv64) | (y as bv64 & z as bv64) == Fips180.Maj(x, y, z) as bv64
  {
  }

  lemma ParityWide(x: Word, y: Word, z: Word)
    ensures x as bv64 ^ y as bv64 ^ z as bv64 == Fips180.Parity(x, y, z) as bv64
  {
  }

  lemma FMatchesCh(x: Word, y: Word, z: Word, t: int)
    requires 0 <= t < 20
    ensures F(x as bv64, y as bv64, z as bv64, t) == Fips180.F(t, x, y, z) as bv64
  {
    var x', y', z' := x as bv64, y as bv64, z as bv64;
    FFirst(x', y', z', t);
    SpecCh(x, y, z, t);
    ChByOr(x, y, z);
  }

  lemma FMatchesMaj(x: Word, y: Word, z: Word, t: int)
    requires 40 <= t < 60
    ensures F(x as bv64, y as bv64, z as bv64, t) == Fips180.F(t, x, y, z) as bv64
  {
    var x', y', z' := x as bv64, y as bv64, z as bv64;
    FMiddle(x', y', z', t);
    SpecMaj(x, y, z, t);
    MajByOr(x, y, z);
  }

  lemma FMatchesParity(x: Word, y: Word, z: Word, t: int)
    requires 20 <= t < 40 || 60 <= t < 80
    ensures F(x as bv64, y as bv64, z as bv64, t) == Fips180.F(t, x, y, z) as bv64
  {
    var x', y', z' := x as bv64, y as bv64, z as bv64;
    // r and g are not used: naming both sides gives the solver the terms it needs.
    var r := F(x', y', z', t);
    var g := Fips180.Parity(x, y, z);
    FXor(x', y', z', t);
    SpecParity(x, y, z, t);
    ParityWide(x, y, z);
  }

  /**
   * On 32-bit inputs f is f_t of FIPS 180-4 section 4.1.1 (Ch, Parity, Maj,
   * Parity), and in particular stays below 2^32 although `~B` sets the high
   * 32 bits.
   */
  lemma FMatchesSpec(x: Word, y: Word, z: Word, t: int)
    requires 0 <= t < 80
    ensures F(x as bv64, y as bv64, z as bv64, t) == Fips180.F(t, x, y, z) as bv64
  {
    if t < 20 {
      FMatchesCh(x, y, z, t);
    } else if 40 <= t < 60 {
      FMatchesMaj(x, y, z, t);
    } else {
      FMatchesParity(x, y, z, t);
    }
  }


  /*
   * ----- Message words, schedule and rounds (sha1.cpp:86-117) -----
   */

  /** A 32-bit word held in a `long long`: zero-extended to 64 bits. */
  function Wide(w: Word): bv64
  {
    w as bv64
  }

  /**
   * The big-endian word of four bytes, each byte read as `unsigned char`,
   * zero-extended into a `long long`: word j of a block, FIPS 180-4 section 3.1.
   */
  function LoadWord(b0: Byte, b1: Byte, b2: Byte, b3: Byte): (r: bv64)
    ensures r == Fips180.WordOf(b0, b1, b2, b3) as bv64
  {
    (b0 as bv64 << 24) | (b1 as bv64 << 16) | (b2 as bv64 << 8) | (b3 as bv64)
  }

  /** The `long long` value of an `int` with bit pattern w: bit 31 copied into bits 32..63. */
  function SignExtend(w: Word): bv64
  {
    if w < 0x8000_0000 then w as bv64 else 0xFFFF_FFFF_0000_0000 | w as bv64
  }

  /**
   * The word load as sha1.cpp:87-90 computes it: the four shifted bytes are
   * `int`s, so the or is an `int`, negative when the first byte is at least
   * 0x80, and is sign-extended on assignment to `W[j]`.
   */
  function LoadWordAsWritten(b0: Byte, b1: Byte, b2: Byte, b3: Byte): bv64
  {
    SignExtend(Fips180.WordOf(b0, b1, b2, b3))
  }

  /**
   * The as-written load agrees with the intended one exactly when the first
   * byte is below 0x80; otherwise the high 32 bits are all ones.
   */
  lemma LoadWordAsWrittenAgrees(b0: Byte, b1: Byte, b2: Byte, b3: Byte)
    ensures b0 < 0x80 <==> LoadWordAsWritten(b0, b1, b2, b3) == LoadWord(b0, b1, b2, b3)
    ensures 0x80 <= b0 ==> LoadWordAsWritten(b0, b1, b2, b3) >> 32 == 0xFFFF_FFFF
  {
    var w := Fips180.WordOf(b0, b1, b2, b3);
    WordOfTop(b0, b1, b2, b3);
    if b0 < 0x80 {
      SignExtendPositive(w);
    } else {
      SignExtendNegative(w);
    }
  }

  lemma SignExtendPositive(w: Word)
    requires w < 0x8000_0000
    ensures SignExtend(w) == w as bv64
  {
  }

  lemma SignExtendNegative(w: Word)
    requires w >= 0x8000_0000
    ensures SignExtend(w) >> 32 == 0xFFFF_FFFF && SignExtend(w) != w as bv64
  {
  }

  lemma WordOfTop(b0: Byte, b1: Byte, b2: Byte, b3: Byte)
    ensures b0 < 0x80 <==> Fips180.WordOf(b0, b1, b2, b3) < 0x8000_0000
  {
  }

  /** Bytes 0..55 of the padded empty message: 0x80, then zeros. */
  lemma EmptyPadBytes()
    ensures |Fips180.Pad([])| == 64
    ensures Fips180.Pad([])[0] == 0x80
    ensures forall i :: 0 < i < 56 ==> Fips180.Pad([])[i] == 0
  {
    Fips180.PadShape([]);
  }

  /**
   * Expansion step j = 16 (sha1.cpp:94) on words 13, 8, 2 and 0 of the
   * empty message's only chunk, with word 0 = 0x80000000 loaded as
   * written: the sign-extended word makes ROLT's arithmetic shift fill the
   * low bits with ones.
   */
  lemma ExpandSignExtended()
    ensures Expand(LoadWordAsWritten(0, 0, 0, 0), LoadWordAsWritten(0, 0, 0, 0), LoadWordAsWritten(0, 0, 0, 0),
                   LoadWordAsWritten(0x80, 0, 0, 0)) == 0xFFFF_FFFF
  {
  }

  /** As written, W[16] of the empty message is 0xFFFFFFFF. */
  lemma EmptyMessageAsWritten()
    ensures var p := Fips180.Pad([]);
      Expand(LoadWordAsWritten(p[52], p[53], p[54], p[55]), LoadWordAsWritten(p[32], p[33], p[34], p[35]),
             LoadWordAsWritten(p[8], p[9], p[10], p[11]), LoadWordAsWritten(p[0], p[1], p[2], p[3])) == 0xFFFF_FFFF
  {
    EmptyPadBytes();
    ExpandSignExtended();
  }

  /** With the unsigned load, W[16] of the empty message is 1, the value FIPS 180-4 gives. */
  lemma EmptyMessageIntended()
    ensures var p := Fips180.Pad([]);
      Expand(LoadWord(p[52], p[53], p[54], p[55]), LoadWord(p[32], p[33], p[34], p[35]),
             LoadWord(p[8], p[9], p[10], p[11]), LoadWord(p[0], p[1], p[2], p[3])) == 1
  {
    EmptyPadBytes();
  }

  /** W_16 of FIPS 180-4 for the empty message's only block is 1. */
  lemma EmptyMessageSchedule()
    ensures Fips180.W(Fips180.Block(Fips180.Pad([]), 0), 16) == 1
  {
    EmptyPadBytes();
    var m := Fips180.Block(Fips180.Pad([]), 0);
    assert m[0] == 0x8000_0000 && m[2] == 0 && m[8] == 0 && m[13] == 0;
  }

  /** The expansion `ROLT(W[j-3] ^ W[j-8] ^ W[j-14] ^ W[j-16], 1)` on 32-bit words is that of section 6.1.2. */
  lemma ScheduleStep(a: Word, b: Word, c: Word, d: Word)
    ensures Rolt(a as bv64 ^ b as bv64 ^ c as bv64 ^ d as bv64, 1) == Fips180.Rotl(a ^ b ^ c ^ d, 1) as bv64
  {
    var x := a ^ b ^ c ^ d;
    var y := a as bv64 ^ b as bv64 ^ c as bv64 ^ d as bv64;
    assert y == x as bv64;
    // Not used: naming the rotation gives the solver the term it needs.
    var r := Rolt(y, 1);
  }

  /** The masked feed-forward `(H[i] + X) & 0xFFFFFFFF` is addition modulo 2^32. */
  lemma FeedForward(h: Word, x: Word)
    ensures (h as bv64 + x as bv64) & 0xFFFF_FFFF == (h + x) as bv64
  {
  }

  lemma RoltWord(x: Word, n: bv32)
    requires 0 < n < 32
    ensures Rolt(x as bv64, n) == Fips180.Rotl(x, n) as bv64
  {
    LowWordBound(x);
  }

  lemma LowWordBound(x: Word)
    ensures x as bv64 <= 0xFFFF_FFFF
  {
  }

  /** The value sha1.cpp:104 assigns to `temp` in round t. */
  function RoundTemp(a: bv64, b: bv64, c: bv64, d: bv64, e: bv64, w: bv64, t: int): bv64
  {
    (Rolt(a, 5) + F(b, c, d, t) + e + w + K(t)) & 0xFFFF_FFFF
  }

  /** The low 32 bits of the 64-bit sum of five values. */
  function MaskedSum(x1: bv64, x2: bv64, x3: bv64, x4: bv64, x5: bv64): bv64
  {
    (x1 + x2 + x3 + x4 + x5) & 0xFFFF_FFFF
  }

  /** The low 32 bits of the 64-bit sum of five zero-extended words. */
  function MaskedWordSum(x1: Word, x2: Word, x3: Word, x4: Word, x5: Word): bv64
  {
    (x1 as bv64 + x2 as bv64 + x3 as bv64 + x4 as bv64 + x5 as bv64) & 0xFFFF_FFFF
  }

  lemma RoundTempIsMaskedSum(a: bv64, b: bv64, c: bv64, d: bv64, e: bv64, w: bv64, t: int)
    ensures RoundTemp(a, b, c, d, e, w, t) == MaskedSum(Rolt(a, 5), F(b, c, d, t), e, w, K(t))
  {
  }

  /** On 32-bit registers the summands of `temp` are ROTL^5(a), f_t(b, c, d) and K_t. */
  lemma SummandsMatchSpec(a: Word, b: Word, c: Word, d: Word, e: Word, t: int, w: bv64)
    requires 0 <= t < 80
    ensures MaskedSum(Rolt(a as bv64, 5), F(b as bv64, c as bv64, d as bv64, t), e as bv64, w, K(t))
         == MaskedSum(Fips180.Rotl(a, 5) as bv64, Fips180.F(t, b, c, d) as bv64, e as bv64, w, Fips180.K(t) as bv64)
  {
    RoltWord(a, 5);
    FMatchesSpec(b, c, d, t);
  }

  lemma RoundTempOfWords(a: Word, b: Word, c: Word, d: Word, e: Word, t: int, w: bv64)
    requires 0 <= t < 80
    ensures RoundTemp(a as bv64, b as bv64, c as bv64, d as bv64, e as bv64, w, t)
         == MaskedSum(Fips180.Rotl(a, 5) as bv64, Fips180.F(t, b, c, d) as bv64, e as bv64, w, Fips180.K(t) as bv64)
  {
    RoundTempIsMaskedSum(a as bv64, b as bv64, c as bv64, d as bv64, e as bv64, w, t);
    SummandsMatchSpec(a, b, c, d, e, t, w);
  }

  lemma MaskedSumOfWords(a: Word, b: Word, c: Word, d: Word, e: Word, t: int, w: Word)
    requires 0 <= t < 80
    ensures MaskedSum(Fips180.Rotl(a, 5) as bv64, Fips180.F(t, b, c, d) as bv64, e as bv64, w as bv64, Fips180.K(t) as bv64)
         == MaskedWordSum(Fips180.Rotl(a, 5), Fips180.F(t, b, c, d), e, w, Fips180.K(t))
  {
  }

  /** Masking the 64-bit sum of zero-extended words to 32 bits is addition modulo 2^32. */
  lemma MaskedWordSumIsT(a: Word, b: Word, c: Word, d: Word, e: Word, t: int, w: Word)
    requires 0 <= t < 80
    ensures MaskedWordSum(Fips180.Rotl(a, 5), Fips180.F(t, b, c, d), e, w, Fips180.K(t)) == Fips180.T(a, b, c, d, e, t, w) as bv64
  {
  }

  /**
   * On registers and a schedule word holding 32-bit words, `temp` of
   * sha1.cpp:104 is T of FIPS 180-4 section 6.1.2.
   */
  lemma RoundTempIsT(a: Word, b: Word, c: Word, d: Word, e: Word, t: int, w: Word)
    requires 0 <= t < 80
    ensures RoundTemp(a as bv64, b as bv64, c as bv64, d as bv64, e as bv64, w as bv64, t)
         == Fips180.T(a, b, c, d, e, t, w) as bv64
  {
    RoundTempOfWords(a, b, c, d, e, t, w as bv64);
    MaskedSumOfWords(a, b, c, d, e, t, w);
    MaskedWordSumIsT(a, b, c, d, e, t, w);
  }

  /*
   * ----- Padding (sha1.cpp:69-81) -----
   */

  /** The shift amount of length byte i stays below 64. */
  lemma LengthShiftBound(i: bv32)
    requires i < 8
    ensures 56 - i * 8 <= 56
  {
  }

  /** Byte i of the length field, as sha1.cpp:80 computes it. */
  function LengthByte(x: bv64, i: bv32): Byte
    requires i < 8
  {
    LengthShiftBound(i);
    ((x >> (56 - i * 8)) & 0xFF) as Byte
  }

  /** The first i bytes of the length field. */
  lemma LengthByteIs(x: bv64)
    ensures LengthByte(x, 0) == Fips180.BigEndian64(x)[0] && LengthByte(x, 1) == Fips180.BigEndian64(x)[1]
    ensures LengthByte(x, 2) == Fips180.BigEndian64(x)[2] && LengthByte(x, 3) == Fips180.BigEndian64(x)[3]
    ensures LengthByte(x, 4) == Fips180.BigEndian64(x)[4] && LengthByte(x, 5) == Fips180.BigEndian64(x)[5]
    ensures LengthByte(x, 6) == Fips180.BigEndian64(x)[6] && LengthByte(x, 7) == Fips180.BigEndian64(x)[7]
  {
  }

  /** Byte i appended by sha1.cpp:79-81 is byte i of the big-endian length field of FIPS 180-4 section 5.1.1. */
  lemma LengthBytesAreBigEndian(x: bv64, i: bv32)
    requires i < 8
    ensures LengthByte(x, i) == Fips180.BigEndian64(x)[i as int]
  {
    LengthByteIs(x);
    // The eight byte positions, split in halves so that each case meets
    // the matching equation of LengthByteIs.
    if i < 4 {
      if i < 2 {
        if i == 0 {} else {}
      } else {
        if i == 2 {} else {}
      }
    } else {
      if i < 6 {
        if i == 4 {} else {}
      } else {
        if i == 6 {} else {}
      }
    }
  }

  lemma AppendStep(prefix: seq<Byte>, padded: seq<Byte>, x: bv64, i: bv32)
    requires i < 8 && padded == prefix + Fips180.BigEndian64(x)[..i]
    ensures padded + [LengthByte(x, i)] == prefix + Fips180.BigEndian64(x)[..i + 1]
  {
    var field := Fips180.BigEndian64(x);
    LengthBytesAreBigEndian(x, i);
    PrefixSnoc(field, i as int);
  }

  lemma PrefixSnoc(s: seq<Byte>, k: nat)
    requires k < |s|
    ensures s[..k + 1] == s[..k] + [s[k]]
  {
  }

  lemma ZerosSnoc(n: nat)
    ensures Fips180.Zeros(n) + [0] == Fips180.Zeros(n + 1)
  {
  }

  /** A byte count is 56 modulo 64 exactly when its bit count is 448 modulo 512. */
  lemma PadTest(n: nat)
    ensures (n * 8) % 512 == 448 <==> n % 64 == 56
  {
  }

  /** The first size past the input that is 56 modulo 64 is the size of the input, 0x80 and the zero bytes. */
  lemma PadTarget(n: nat, len: nat)
    requires len < n <= len + 1 + Fips180.PadZeroCount(len) && n % 64 == 56
    ensures n == len + 1 + Fips180.PadZeroCount(len)
  {
    Fips180.ModArith(len);
  }

  /**
   * The padding of sha1.cpp:69-81: 0x80, zero bytes until the size in bits
   * is 448 modulo 512, then the size in bits of the input as eight bytes,
   * most significant first. The sizes are `size_t`s; multiplying by eight
   * wraps around modulo 2^64, and since 512 divides 2^64 the padding test
   * is the same on the wrapped and the exact product.
   */
  method PadMessage(input: seq<Byte>) returns (padded: seq<Byte>)
    ensures padded == Fips180.Pad(input)
  {
    ghost var target := |input| + 1 + Fips180.PadZeroCount(|input|);
    Fips180.ModArith(|input|);
    padded := input;
    var originalLength: bv64 := ((|padded| * 8) % 0x1_0000_0000_0000_0000) as bv64;
    padded := padded + [0x80];
    while (|padded| * 8) % 512 != 448
      invariant |input| < |padded| <= target
      invariant padded == input + [0x80] + Fips180.Zeros(|padded| - |input| - 1)
      decreases target - |padded|
    {
      PadTest(|padded|);
      ZerosSnoc(|padded| - |input| - 1);
      padded := padded + [0];
    }
    PadTest(|padded|);
    PadTarget(|padded|, |input|);
    assert originalLength == Fips180.BitLength(|input|);
    padded := AppendLength(padded, originalLength);
  }

  /** The loop of sha1.cpp:79-81: appends the eight bytes of x, most significant first. */
  method AppendLength(prefix: seq<Byte>, x: bv64) returns (padded: seq<Byte>)
    ensures padded == prefix + Fips180.BigEndian64(x)
  {
    ghost var field := Fips180.BigEndian64(x);
    padded := prefix;
    var i: bv32 := 0;
    while i < 8
      invariant i <= 8
      invariant padded == prefix + field[..i]
    {
      AppendStep(prefix, padded, x, i);
      padded := padded + [LengthByte(x, i)];
      i := i + 1;
    }
    assert field[..8] == field;
  }

  /*
   * ----- Message schedule (sha1.cpp:85-95) -----
   */

  /** The expansion of sha1.cpp:94 from the four earlier schedule words. */
  function Expand(w3: bv64, w8: bv64, w14: bv64, w16: bv64): bv64
  {
    Rolt(w3 ^ w8 ^ w14 ^ w16, 1)
  }

  /** ROTL^1 of the xor of four words: the recurrence of section 6.1.2, step 1. */
  function RotXor(a: Word, b: Word, c: Word, d: Word): Word
  {
    Fips180.Rotl(a ^ b ^ c ^ d, 1)
  }

  /** Word t of s follows from the four earlier words as in section 6.1.2, step 1. */
  predicate Expands(s: seq<Word>, t: nat)
    requires 16 <= t < |s|
  {
    s[t] == RotXor(s[t - 3], s[t - 8], s[t - 14], s[t - 16])
  }

  lemma Recurrence(m: seq<Word>, t: nat)
    requires |m| == 16 && 16 <= t < 80
    ensures Fips180.W(m, t) == RotXor(Fips180.W(m, t - 3), Fips180.W(m, t - 8), Fips180.W(m, t - 14), Fips180.W(m, t - 16))
  {
  }

  lemma ScheduleExpandsAt(m: seq<Word>, t: nat)
    requires |m| == 16 && 16 <= t < 80
    ensures Expands(Fips180.Schedule(m), t)
  {
    var s := Fips180.Schedule(m);
    Recurrence(m, t);
    assert s[t] == Fips180.W(m, t);
    assert s[t - 3] == Fips180.W(m, t - 3) && s[t - 8] == Fips180.W(m, t - 8);
    assert s[t - 14] == Fips180.W(m, t - 14) && s[t - 16] == Fips180.W(m, t - 16);
  }

  /** The message schedule satisfies the recurrence from word 16 on. */
  lemma ScheduleExpands(m: seq<Word>)
    requires |m| == 16
    ensures forall t :: 16 <= t < 80 ==> Expands(Fips180.Schedule(m), t)
  {
    forall t | 16 <= t < 80 {
      ScheduleExpandsAt(m, t);
    }
  }

  /** The expansion on four zero-extended words is ROTL^1 of their xor. */
  lemma ExpandOfWords(a: Word, b: Word, c: Word, d: Word)
    ensures Expand(Wide(a), Wide(b), Wide(c), Wide(d)) == Wide(RotXor(a, b, c, d))
  {
    ScheduleStep(a, b, c, d);
  }

  lemma ExpandOfWide(x3: bv64, x8: bv64, x14: bv64, x16: bv64, a: Word, b: Word, c: Word, d: Word)
    requires x3 == Wide(a) && x8 == Wide(b) && x14 == Wide(c) && x16 == Wide(d)
    ensures Expand(x3, x8, x14, x16) == Wide(RotXor(a, b, c, d))
  {
    ExpandOfWords(a, b, c, d);
  }

  /** On words holding W_{t-3}, W_{t-8}, W_{t-14} and W_{t-16}, the expansion gives W_t. */
  lemma ExpandStep(x3: bv64, x8: bv64, x14: bv64, x16: bv64, s: seq<Word>, t: nat)
    requires 16 <= t < |s| && Expands(s, t)
    requires x3 == Wide(s[t - 3]) && x8 == Wide(s[t - 8]) && x14 == Wide(s[t - 14]) && x16 == Wide(s[t - 16])
    ensures Expand(x3, x8, x14, x16) == Wide(s[t])
  {
    ExpandOfWide(x3, x8, x14, x16, s[t - 3], s[t - 8], s[t - 14], s[t - 16]);
  }

  /** Word j of the chunk at offset i, as sha1.cpp:87-90 is meant to load it, is W_j. */
  lemma LoadStep(padded: seq<Byte>, i: nat, j: nat, s: seq<Word>)
    requires i % 64 == 0 && i + 64 <= |padded| && j < 16
    requires s == Fips180.Schedule(Fips180.Block(padded, i / 64))
    ensures LoadWord(padded[i + j * 4], padded[i + j * 4 + 1], padded[i + j * 4 + 2], padded[i + j * 4 + 3])
         == Wide(s[j])
  {
    assert 64 * (i / 64) == i;
  }

  /**
   * The schedule of the 64-byte chunk at offset i (sha1.cpp:85-95): a fresh
   * array of eighty words holding the message schedule W_0..W_79 of FIPS
   * 180-4 section 6.1.2 for that block.
   */
  method LoadSchedule(padded: seq<Byte>, i: nat) returns (W: array<bv64>)
    requires i % 64 == 0 && i + 64 <= |padded|
    ensures fresh(W) && W.Length == 80
    ensures forall t :: 0 <= t < 80 ==> W[t] == Wide(Fips180.Schedule(Fips180.Block(padded, i / 64))[t])
  {
    W := new bv64[80];
    LoadWords(W, padded, i);
    ScheduleExpands(Fips180.Block(padded, i / 64));
    ExpandWords(W, Fips180.Schedule(Fips180.Block(padded, i / 64)));
  }

  /** The loop of sha1.cpp:86-91: W[0..15] are the sixteen big-endian words of the chunk at offset i. */
  method LoadWords(W: array<bv64>, padded: seq<Byte>, i: nat)
    requires W.Length == 80 && i % 64 == 0 && i + 64 <= |padded|
    modifies W
    ensures forall t :: 0 <= t < 16 ==> W[t] == Wide(Fips180.Schedule(Fips180.Block(padded, i / 64))[t])
  {
    ghost var s := Fips180.Schedule(Fips180.Block(padded, i / 64));
    var j := 0;
    while j < 16
      invariant 0 <= j <= 16
      invariant forall t :: 0 <= t < j ==> W[t] == Wide(s[t])
    {
      LoadStep(padded, i, j, s);
      W[j] := LoadWord(padded[i + j * 4], padded[i + j * 4 + 1], padded[i + j * 4 + 2], padded[i + j * 4 + 3]);
      j := j + 1;
    }
  }

  /** The loop of sha1.cpp:93-95: W[16..79] expanded from the earlier words. */
  method ExpandWords(W: array<bv64>, ghost s: seq<Word>)
    requires W.Length == 80 && |s| == 80
    requires forall t :: 16 <= t < 80 ==> Expands(s, t)
    requires forall t :: 0 <= t < 16 ==> W[t] == Wide(s[t])
    modifies W
    ensures forall t :: 0 <= t < 80 ==> W[t] == Wide(s[t])
  {
    var j := 16;
    while j < 80
      invariant 16 <= j <= 80
      invariant forall t :: 0 <= t < j ==> W[t] == Wide(s[t])
    {
      ExpandStep(W[j - 3], W[j - 8], W[j - 14], W[j - 16], s, j);
      W[j] := Expand(W[j - 3], W[j - 8], W[j - 14], W[j - 16]);
      j := j + 1;
    }
  }

  /*
   * ----- Compression (sha1.cpp:97-117) -----
   */

  /** The five registers as the `long long` values sha1.cpp keeps them in. */
  function Lift(r: Fips180.Regs): seq<bv64>
  {
    [Wide(r.a), Wide(r.b), Wide(r.c), Wide(r.d), Wide(r.e)]
  }

  lemma RoundTempOfWide(a: Word, b: Word, c: Word, d: Word, e: Word, t: int, w: Word)
    requires 0 <= t < 80
    ensures RoundTemp(Wide(a), Wide(b), Wide(c), Wide(d), Wide(e), Wide(w), t) == Wide(Fips180.T(a, b, c, d, e, t, w))
  {
    RoundTempIsT(a, b, c, d, e, t, w);
  }

  lemma RoltWide(x: Word, n: bv32)
    requires 0 < n < 32
    ensures Rolt(Wide(x), n) == Wide(Fips180.Rotl(x, n))
  {
    RoltWord(x, n);
  }

  /**
   * One round of sha1.cpp:104-109 on registers holding the working
   * variables r and a schedule word holding w: `temp` becomes the new a and
   * ROLT(B, 30) the new c of FIPS 180-4 section 6.1.2, step 3.
   */
  lemma RoundStep(x1: bv64, x2: bv64, x3: bv64, x4: bv64, x5: bv64, x: bv64, r: Fips180.Regs, t: nat, w: Word)
    requires t < 80
    requires x1 == Wide(r.a) && x2 == Wide(r.b) && x3 == Wide(r.c) && x4 == Wide(r.d) && x5 == Wide(r.e)
    requires x == Wide(w)
    ensures RoundTemp(x1, x2, x3, x4, x5, x, t) == Wide(Fips180.Step(r, t, w).a)
    ensures Rolt(x2, 30) == Wide(Fips180.Step(r, t, w).c)
  {
    RoundTempOfWide(r.a, r.b, r.c, r.d, r.e, t, w);
    RoltWide(r.b, 30);
  }

  /**
   * The eighty rounds of sha1.cpp:97-110: starting from registers holding
   * the hash value h, A..E end up holding the working variables after the
   * eighty steps of FIPS 180-4 section 6.1.2 over the schedule W holds.
   */
  method RunRounds(W: array<bv64>, ghost h: Fips180.Regs, ghost s: seq<Word>,
                   A0: bv64, B0: bv64, C0: bv64, D0: bv64, E0: bv64)
    returns (A: bv64, B: bv64, C: bv64, D: bv64, E: bv64)
    requires W.Length == 80 && |s| == 80
    requires forall t :: 0 <= t < 80 ==> W[t] == Wide(s[t])
    requires A0 == Wide(h.a) && B0 == Wide(h.b) && C0 == Wide(h.c) && D0 == Wide(h.d) && E0 == Wide(h.e)
    ensures var r := Fips180.Rounds(h, s, 80);
      A == Wide(r.a) && B == Wide(r.b) && C == Wide(r.c) && D == Wide(r.d) && E == Wide(r.e)
  {
    A, B, C, D, E := A0, B0, C0, D0, E0;
    ghost var r := h;
    var j := 0;
    while j < 80
      invariant 0 <= j <= 80
      invariant r == Fips180.Rounds(h, s, j)
      invariant A == Wide(r.a) && B == Wide(r.b) && C == Wide(r.c) && D == Wide(r.d) && E == Wide(r.e)
    {
      RoundStep(A, B, C, D, E, W[j], r, j, s[j]);
      var temp := RoundTemp(A, B, C, D, E, W[j], j);
      E := D;
      D := C;
      C := Rolt(B, 30);
      B := A;
      A := temp;
      r := Fips180.Step(r, j, s[j]);
      j := j + 1;
    }
  }

  /** The feed-forward `(H[i] + X) & 0xFFFFFFFF` of sha1.cpp:113-117. */
  function AddMasked(h: bv64, x: bv64): bv64
  {
    (h + x) & 0xFFFF_FFFF
  }

  lemma AddMaskedWords(h: Word, r: Word)
    ensures AddMasked(Wide(h), Wide(r)) == Wide(Fips180.AddMod32(h, r))
  {
    FeedForward(h, r);
  }

  /** The feed-forward on registers holding the words h and r is their sum modulo 2^32. */
  lemma AddMaskedStep(y: bv64, x: bv64, h: Word, r: Word)
    requires y == Wide(h) && x == Wide(r)
    ensures AddMasked(y, x) == Wide(Fips180.AddMod32(h, r))
  {
    AddMaskedWords(h, r);
  }

  /** Five words that hold the words of r, in order, are r lifted. */
  lemma LiftOf(r: Fips180.Regs, n: seq<bv64>)
    requires |n| == 5 && n[0] == Wide(r.a) && n[1] == Wide(r.b) && n[2] == Wide(r.c) && n[3] == Wide(r.d) && n[4] == Wide(r.e)
    ensures n == Lift(r)
  {
  }

  /**
   * The feed-forward (sha1.cpp:113-117): each of H[0..4] gets the matching
   * working variable added modulo 2^32, so that H goes from the hash value
   * h to h + r word by word.
   */
  method FeedForwardInto(H: array<bv64>, ghost h: Fips180.Regs, ghost r: Fips180.Regs, A: bv64, B: bv64, C: bv64, D: bv64, E: bv64)
    requires H.Length == 5
    requires H[0] == Wide(h.a) && H[1] == Wide(h.b) && H[2] == Wide(h.c) && H[3] == Wide(h.d) && H[4] == Wide(h.e)
    requires A == Wide(r.a) && B == Wide(r.b) && C == Wide(r.c) && D == Wide(r.d) && E == Wide(r.e)
    modifies H
    ensures var n := Fips180.Add(h, r);
      H[0] == Wide(n.a) && H[1] == Wide(n.b) && H[2] == Wide(n.c) && H[3] == Wide(n.d) && H[4] == Wide(n.e)
  {
    var h0, h1, h2, h3, h4 := H[0], H[1], H[2], H[3], H[4];
    AddMaskedStep(h0, A, h.a, r.a);
    AddMaskedStep(h1, B, h.b, r.b);
    AddMaskedStep(h2, C, h.c, r.c);
    AddMaskedStep(h3, D, h.d, r.d);
    AddMaskedStep(h4, E, h.e, r.e);
    var n0, n1, n2, n3, n4 := AddMasked(h0, A), AddMasked(h1, B), AddMasked(h2, C), AddMasked(h3, D), AddMasked(h4, E);
    H[0], H[1], H[2], H[3], H[4] := n0, n1, n2, n3, n4;
  }

  /**
   * The rounds and the feed-forward of one chunk (sha1.cpp:97-117): H goes
   * from the hash value h to the hash value of FIPS 180-4 section 6.1.2
   * after the block whose schedule W holds.
   */
  method CompressChunk(H: array<bv64>, W: array<bv64>, ghost h: Fips180.Regs, ghost s: seq<Word>)
    requires H.Length == 5 && W.Length == 80 && |s| == 80 && H != W
    requires H[..] == Lift(h)
    requires forall t :: 0 <= t < 80 ==> W[t] == Wide(s[t])
    modifies H
    ensures H[..] == Lift(Fips180.Compress(h, s))
  {
    assert H[0] == Wide(h.a) && H[1] == Wide(h.b) && H[2] == Wide(h.c) && H[3] == Wide(h.d) && H[4] == Wide(h.e);
    var A, B, C, D, E := RunRounds(W, h, s, H[0], H[1], H[2], H[3], H[4]);
    ghost var r := Fips180.Rounds(h, s, 80);
    FeedForwardInto(H, h, r, A, B, C, D, E);
    LiftOf(Fips180.Add(h, r), H[..]);
  }

  // ---------------------------------------------------------------------
  // The whole hash (sha1.cpp:63-126)
  // ---------------------------------------------------------------------

  /** The words of hs, each as eight hexadecimal digits, one after the other. */
  function HexWords(hs: seq<bv64>): (r: string)
    ensures |r| == 8 * |hs|
  {
    if hs == [] then [] else HexWords(hs[..|hs| - 1]) + Sha1Hex.Hex(hs[|hs| - 1], 8)
  }

  /** The text SHA_1 returns for a message: the FIPS 180-4 digest, word by word in hexadecimal. */
  function DigestHex(m: seq<Byte>): string
  {
    HexWords(Lift(Fips180.Digest(m)))
  }

  /** Characters 8k to 8k + 7 of the text are the digits of word k. */
  lemma {:induction false} HexWordsSlice(hs: seq<bv64>, k: nat)
    requires k < |hs|
    ensures HexWords(hs)[8 * k..8 * k + 8] == Sha1Hex.Hex(hs[k], 8)
    decreases |hs|
  {
    var init := hs[..|hs| - 1];
    var front := HexWords(init);
    var last := Sha1Hex.Hex(hs[|hs| - 1], 8);
    assert HexWords(hs) == front + last;
    if k < |hs| - 1 {
      HexWordsSlice(init, k);
      assert init[k] == hs[k];
      SliceOfFront(front, last, 8 * k, 8 * k + 8);
    } else {
      SliceOfBack(front, last);
    }
  }

  lemma SliceOfFront(a: string, b: string, i: nat, j: nat)
    requires i <= j <= |a|
    ensures (a + b)[i..j] == a[i..j]
  {
  }

  lemma SliceOfBack(a: string, b: string)
    ensures (a + b)[|a|..|a| + |b|] == b
  {
  }

  /**
   * The digest text has forty characters, all uppercase hexadecimal digits,
   * and its k-th group of eight reads back as word k of the FIPS 180-4 digest.
   */
  lemma DigestHexReadsBack(m: seq<Byte>, k: nat)
    requires k < 5
    ensures |DigestHex(m)| == 40
    ensures forall j :: 8 * k <= j < 8 * k + 8 ==> DigestHex(m)[j] in Sha1Hex.HexDigits
    ensures Sha1Hex.ParseHex(DigestHex(m)[8 * k..8 * k + 8]) == Lift(Fips180.Digest(m))[k]
  {
    var hs := Lift(Fips180.Digest(m));
    HexWordsSlice(hs, k);
    Sha1Hex.HexAlphabet(hs[k], 8);
    forall j | 8 * k <= j < 8 * k + 8
      ensures DigestHex(m)[j] in Sha1Hex.HexDigits
    {
      assert DigestHex(m)[j] == Sha1Hex.Hex(hs[k], 8)[j - 8 * k];
    }
    WideBound(Fips180.Digest(m), k);
    Sha1Hex.HexWordRoundTrip(hs[k]);
  }

  lemma WideBound(r: Fips180.Regs, k: nat)
    requires k < 5
    ensures Lift(r)[k] <= 0xFFFF_FFFF
  {
    var w := if k == 0 then r.a else if k == 1 then r.b else if k == 2 then r.c else if k == 3 then r.d else r.e;
    assert Lift(r)[k] == Wide(w);
    WideWordBound(w);
  }

  lemma WideWordBound(w: Word)
    ensures Wide(w) <= 0xFFFF_FFFF
  {
    LowWordBound(w);
  }

  /** The initial contents of H (sha1.cpp:65-67) are H(0) of FIPS 180-4. */
  lemma InitialWords()
    ensures Lift(Fips180.InitialHash) == [0x67452301, 0xEFCDAB89, 0x98BADCFE, 0x10325476, 0xC3D2E1F0]
  {
  }

  /** A chunk offset below a length that is a multiple of 64 leaves room for a whole chunk. */
  lemma ChunkFits(i: nat, n: nat)
    requires i % 64 == 0 && n % 64 == 0 && i < n
    ensures i + 64 <= n
  {
  }

  /** One more chunk is one more compression (FIPS 180-4 section 6.1.2). */
  lemma HashBlocksStep(padded: seq<Byte>, i: nat)
    requires i % 64 == 0 && i + 64 <= |padded|
    ensures (i + 64) / 64 == i / 64 + 1
    ensures Fips180.HashBlocks(padded, (i + 64) / 64)
         == Fips180.Compress(Fips180.HashBlocks(padded, i / 64), Fips180.Schedule(Fips180.Block(padded, i / 64)))
  {
    assert (i + 64) / 64 == i / 64 + 1;
  }

  /**
   * The chunk loop of sha1.cpp:84-118: starting from H(0), H ends as the
   * hash value after every 64-byte chunk of the padded message.
   */
  method ProcessChunks(H: array<bv64>, padded: seq<Byte>)
    requires H.Length == 5 && |padded| % 64 == 0
    requires H[..] == Lift(Fips180.InitialHash)
    modifies H
    ensures H[..] == Lift(Fips180.HashBlocks(padded, |padded| / 64))
  {
    var i := 0;
    while i < |padded|
      invariant i % 64 == 0 && i <= |padded|
      invariant H[..] == Lift(Fips180.HashBlocks(padded, i / 64))
    {
      ChunkFits(i, |padded|);
      var W := LoadSchedule(padded, i);
      HashBlocksStep(padded, i);
      CompressChunk(H, W, Fips180.HashBlocks(padded, i / 64), Fips180.Schedule(Fips180.Block(padded, i / 64)));
      i := i + 64;
    }
  }

  /** The output loop of sha1.cpp:121-124: the five words as eight hexadecimal digits each. */
  method HexOfWords(H: array<bv64>) returns (hash: string)
    ensures hash == HexWords(H[..])
  {
    hash := "";
    var k := 0;
    while k < H.Length
      invariant k <= H.Length && hash == HexWords(H[..k])
    {
      var digits := Sha1Hex.HexToString(H[k], 8);
      assert H[..k + 1][..k] == H[..k];
      hash := hash + digits;
      k := k + 1;
    }
    assert H[..k] == H[..];
  }

  /**
   * SHA_1 (sha1.cpp:63-126): pads the input, runs the compression over each
   * 64-byte chunk, and returns the hash value in hexadecimal; the result is
   * the FIPS 180-4 digest of the input.
   */
  method Hash(input: seq<Byte>) returns (hash: string)
    ensures hash == DigestHex(input)
  {
    var H := new bv64[5];
    H[0], H[1], H[2], H[3], H[4] := 0x67452301, 0xEFCDAB89, 0x98BADCFE, 0x10325476, 0xC3D2E1F0;
    InitialWords();
    var padded := PadMessage(input);
    Fips180.PadShape(input);
    ProcessChunks(H, padded);
    hash := HexOfWords(H);
  }
}
