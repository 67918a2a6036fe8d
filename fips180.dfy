/**
 * SHA-1 as FIPS 180-4 defines it, over 32-bit words: the reference the
 * model of sha1.cpp is proved against. Section numbers are those of
 * FIPS 180-4.
 */
module Fips180 {
  import NumberTheory

  type Word = bv32
  type Byte = bv8

  /** The circular left shift ROTL^n(x) = (x << n) | (x >> (32 - n)) of sections 2.2.2 and 3.2. */
  function Rotl(x: Word, n: Word): Word
    requires n < 32
  {
    (x << n) | (x >> (32 - n))
  }

  /** Ch(x, y, z) of section 4.1.1. */
  function Ch(x: Word, y: Word, z: Word): Word
  {
    (x & y) ^ (!x & z)
  }

  /** Parity(x, y, z) of section 4.1.1. */
  function Parity(x: Word, y: Word, z: Word): Word
  {
    x ^ y ^ z
  }

  /** Maj(x, y, z) of section 4.1.1. */
  function Maj(x: Word, y: Word, z: Word): Word
  {
    (x & y) ^ (x & z) ^ (y & z)
  }

  /** The round function f_t of section 4.1.1. */
  function F(t: nat, x: Word, y: Word, z: Word): Word
    requires t < 80
  {
    if t < 20 then Ch(x, y, z)
    else if t < 40 then Parity(x, y, z)
    else if t < 60 then Maj(x, y, z)
    else Parity(x, y, z)
  }

  /** The four round constants of section 4.2.1, one per group of twenty rounds. */
  const RoundConstants: seq<Word> := [0x5a827999, 0x6ed9eba1, 0x8f1bbcdc, 0xca62c1d6]

  /** The constant K_t of section 4.2.1. */
  function K(t: nat): Word
    requires t < 80
  {
    RoundConstants[t / 20]
  }

  /** The five working variables a..e (also used for the hash value H0..H4). */
  datatype Regs = Regs(a: Word, b: Word, c: Word, d: Word, e: Word)

  /** The initial hash value H(0) of section 5.3.1. */
  const InitialHash: Regs := Regs(0x67452301, 0xefcdab89, 0x98badcfe, 0x10325476, 0xc3d2e1f0)

  /**
   * The message length in bits as the 64-bit field of section 5.1.1: eight
   * bits per byte, reduced modulo 2^64, so that lengths beyond 2^64 bits
   * wrap around.
   */
  function BitLength(len: nat): bv64
  {
    ((len * 8) % 0x1_0000_0000_0000_0000) as bv64
  }

  /** The eight bytes of a 64-bit value, most significant first. */
  function BigEndian64(x: bv64): seq<Byte>
  {
    [(x >> 56) as bv8, ((x >> 48) & 0xff) as bv8, ((x >> 40) & 0xff) as bv8, ((x >> 32) & 0xff) as bv8,
     ((x >> 24) & 0xff) as bv8, ((x >> 16) & 0xff) as bv8, ((x >> 8) & 0xff) as bv8, (x & 0xff) as bv8]
  }

  /** The number of zero bytes padding adds: the smallest z with len + 1 + z = 56 (mod 64). */
  function PadZeroCount(len: nat): nat
  {
    (55 - len) % 64
  }

  function Zeros(n: nat): seq<Byte>
  {
    seq(n, _ => 0)
  }

  /** Padding, section 5.1.1: a one bit, zeros, then the 64-bit length. */
  function Pad(m: seq<Byte>): seq<Byte>
  {
    m + [0x80] + Zeros(PadZeroCount(|m|)) + BigEndian64(BitLength(|m|))
  }

  /** The 32-bit word of four bytes, most significant first (section 3.1). */
  function WordOf(b0: Byte, b1: Byte, b2: Byte, b3: Byte): Word
  {
    (b0 as Word << 24) | (b1 as Word << 16) | (b2 as Word << 8) | (b3 as Word)
  }

  /** The sixteen words M_0..M_15 of the i-th 512-bit block of a padded message (section 5.2.1). */
  function Block(padded: seq<Byte>, i: nat): (r: seq<Word>)
    requires 64 * (i + 1) <= |padded|
    ensures |r| == 16
  {
    seq(16, j requires 0 <= j < 16 =>
      WordOf(padded[64 * i + 4 * j], padded[64 * i + 4 * j + 1], padded[64 * i + 4 * j + 2], padded[64 * i + 4 * j + 3]))
  }

  /** The message schedule W_t of section 6.1.2, step 1. */
  function W(m: seq<Word>, t: nat): Word
    requires |m| == 16 && t < 80
  {
    if t < 16 then m[t]
    else Rotl(W(m, t - 3) ^ W(m, t - 8) ^ W(m, t - 14) ^ W(m, t - 16), 1)
  }

  function Schedule(m: seq<Word>): (s: seq<Word>)
    requires |m| == 16
    ensures |s| == 80
  {
    seq(80, t requires 0 <= t < 80 => W(m, t))
  }

  /** The value T = ROTL^5(a) + f_t(b, c, d) + e + K_t + W_t of section 6.1.2, step 3. */
  function T(a: Word, b: Word, c: Word, d: Word, e: Word, t: nat, w: Word): Word
    requires t < 80
  {
    Rotl(a, 5) + F(t, b, c, d) + e + K(t) + w
  }

  /** One round of section 6.1.2, step 3. */
  function Step(r: Regs, t: nat, w: Word): Regs
    requires t < 80
  {
    Regs(T(r.a, r.b, r.c, r.d, r.e, t, w), r.a, Rotl(r.b, 30), r.c, r.d)
  }

  /** The working variables after the first t rounds over schedule s. */
  function Rounds(h: Regs, s: seq<Word>, t: nat): Regs
    requires |s| == 80 && t <= 80
  {
    if t == 0 then h else Step(Rounds(h, s, t - 1), t - 1, s[t - 1])
  }

  /** Addition modulo 2^32 (section 3.2). */
  function AddMod32(x: Word, y: Word): Word
  {
    x + y
  }

  /** Word-wise addition modulo 2^32 (section 6.1.2, step 4). */
  function Add(h: Regs, r: Regs): Regs
  {
    Regs(AddMod32(h.a, r.a), AddMod32(h.b, r.b), AddMod32(h.c, r.c), AddMod32(h.d, r.d), AddMod32(h.e, r.e))
  }

  /** The hash value after processing one block with schedule s. */
  function Compress(h: Regs, s: seq<Word>): Regs
    requires |s| == 80
  {
    Add(h, Rounds(h, s, 80))
  }

  /** The hash value H(i) after the first i blocks of a padded message. */
  function HashBlocks(padded: seq<Byte>, i: nat): Regs
    requires 64 * i <= |padded|
  {
    if i == 0 then InitialHash
    else Compress(HashBlocks(padded, i - 1), Schedule(Block(padded, i - 1)))
  }

  /** The SHA-1 digest of m: the final hash value H(N). */
  function Digest(m: seq<Byte>): Regs
  {
    PadShape(m);
    HashBlocks(Pad(m), |Pad(m)| / 64)
  }

  /**
   * The padded message is the input, 0x80, zero bytes and the 64-bit
   * big-endian bit length; its length is a multiple of 64 bytes, at least
   * nine and at most seventy-two bytes more than the input.
   */
  lemma PadShape(m: seq<Byte>)
    ensures Pad(m)[..|m|] == m && Pad(m)[|m|] == 0x80
    ensures forall i :: |m| < i < |Pad(m)| - 8 ==> Pad(m)[i] == 0
    ensures Pad(m)[|Pad(m)| - 8..] == BigEndian64(BitLength(|m|))
    ensures |Pad(m)| % 64 == 0
    ensures |m| + 9 <= |Pad(m)| <= |m| + 72
  {
    PadLength(m);
    PadHead(m);
    PadZeros(m);
    PadTail(m);
  }

  lemma PadLength(m: seq<Byte>)
    ensures |Pad(m)| == |m| + 9 + PadZeroCount(|m|)
    ensures |Pad(m)| % 64 == 0
    ensures |m| + 9 <= |Pad(m)| <= |m| + 72
  {
    assert |Pad(m)| == |m| + 9 + PadZeroCount(|m|);
    ModArith(|m|);
  }

  lemma PadHead(m: seq<Byte>)
    ensures Pad(m)[..|m|] == m && Pad(m)[|m|] == 0x80
  {
    var rest := [0x80] + Zeros(PadZeroCount(|m|)) + BigEndian64(BitLength(|m|));
    assert Pad(m) == m + rest;
  }

  lemma PadZeros(m: seq<Byte>)
    ensures forall i :: |m| < i < |Pad(m)| - 8 ==> Pad(m)[i] == 0
  {
    var z := Zeros(PadZeroCount(|m|));
    forall i | |m| < i < |Pad(m)| - 8
      ensures Pad(m)[i] == 0
    {
      assert Pad(m)[i] == z[i - |m| - 1];
    }
  }

  lemma PadTail(m: seq<Byte>)
    ensures |Pad(m)| >= 8 && Pad(m)[|Pad(m)| - 8..] == BigEndian64(BitLength(|m|))
  {
    var head := m + [0x80] + Zeros(PadZeroCount(|m|));
    assert Pad(m) == head + BigEndian64(BitLength(|m|));
  }

  lemma ModArith(len: nat)
    ensures (len + 1 + (55 - len) % 64) % 64 == 56
    ensures (len + 9 + (55 - len) % 64) % 64 == 0
    ensures (55 - len) % 64 < 64
  {
    var z, q := (55 - len) % 64, (55 - len) / 64;
    assert 55 - len == q * 64 + z;
    NumberTheory.DivModUnique(len + 1 + z, 64, -q, 56);
    NumberTheory.DivModUnique(len + 9 + z, 64, 1 - q, 0);
  }

  /** The length field reads back as the 64-bit value it encodes. */
  lemma BigEndian64RoundTrip(x: bv64)
    ensures var b := BigEndian64(x);
      (b[0] as bv64 << 56) | (b[1] as bv64 << 48) | (b[2] as bv64 << 40) | (b[3] as bv64 << 32)
      | (b[4] as bv64 << 24) | (b[5] as bv64 << 16) | (b[6] as bv64 << 8) | b[7] as bv64 == x
  {
  }
}
