/**
 * Textbook RSA of rsa.cpp: key derivation from two primes, the block
 * operation v^k mod n, and file encryption and decryption in blocks of
 * ten bytes. The random draws of the source are parameters: the primes p
 * and q, and the sequence of values RandomBnd returns. Files are byte
 * sequences; the cipher file is the sequence of numbers written one per
 * line.
 *
 * Key derivation is shared with rsa_signature.cpp (RSA_Key, lines 24-48)
 * and rsa_certificate.cpp (RSA_Key, lines 25-49), which repeat it with a
 * `while (true) ... break` loop in place of the do-while.
 */
module Rsa {
  import opened NumberTheory
  import opened Ntl
  import opened Wrappers

  // ---------------------------------------------------------------------
  // Keys (rsa.cpp:24-43)

  /** The public modulus n, the public exponent e and the private exponent d. */
  datatype Key = Key(n: nat, e: nat, d: nat)

  /** Euler's totient (p - 1)(q - 1) of n = p * q, the `euler` of the source. */
  function Totient(p: nat, q: nat): (r: nat)
    requires p >= 2 && q >= 2
    ensures r >= 1
  {
    MulPositive(p - 1, q - 1);
    (p - 1) * (q - 1)
  }

  /**
   * What RSA_key establishes about the key it returns for primes p and q:
   * n = p * q, e and d are residues modulo the totient, e is coprime to it
   * and d is its inverse.
   */
  predicate DerivedFrom(k: Key, p: nat, q: nat)
    requires p >= 2 && q >= 2
  {
    var t := Totient(p, q);
    k.n == p * q && k.e < t && k.d < t && Gcd(k.e, t) == 1 && (k.e * k.d) % t == 1 % t
  }

  /** A key is valid when decryption undoes encryption for every block below n. */
  ghost predicate ValidKey(k: Key)
  {
    k.n > 1 && forall v: nat :: v < k.n ==> PowerMod(PowerMod(v, k.e, k.n), k.d, k.n) == v
  }

  /**
   * The retry loop of RSA_key (rsa.cpp:32-39): draws e until InvModStatus
   * finds its inverse d modulo the totient. `draws` are the values RandomBnd
   * returns, each below the totient; the result is None only when no draw
   * has an inverse (the source would keep drawing).
   */
  method DeriveKey(p: nat, q: nat, draws: seq<nat>) returns (key: Option<Key>)
    requires p >= 2 && q >= 2
    requires forall i :: 0 <= i < |draws| ==> draws[i] < Totient(p, q)
    ensures key.Some? ==> DerivedFrom(key.value, p, q)
    ensures key.Some? ==> exists i :: 0 <= i < |draws| && draws[i] == key.value.e &&
                                     (forall j :: 0 <= j < i ==> Gcd(draws[j], Totient(p, q)) != 1)
    ensures key.None? ==> forall i :: 0 <= i < |draws| ==> Gcd(draws[i], Totient(p, q)) != 1
  {
    var n := p * q;
    var euler := (p - 1) * (q - 1);
    var i := 0;
    while i < |draws|
      invariant 0 <= i <= |draws|
      invariant forall j :: 0 <= j < i ==> Gcd(draws[j], euler) != 1
    {
      var e := draws[i];
      var (status, d) := InvModStatus(e, euler);
      if status == 0 {
        return Some(Key(n, e, d));
      }
      i := i + 1;
    }
    return None;
  }

  /**
   * For distinct primes, the key RSA_key derives is valid: every block
   * below n comes back from encryption with e and decryption with d
   * (Fermat's little theorem and the Chinese remainder theorem).
   */
  lemma DerivedKeyValid(k: Key, p: nat, q: nat)
    requires IsPrime(p) && IsPrime(q) && p != q
    requires DerivedFrom(k, p, q)
    ensures ValidKey(k)
  {
    var t := Totient(p, q);
    TotientAtLeastTwo(p, q);
    DivModUnique(1, t, 0, 1);
    assert k.n > 1 by {
      MulMonotone(2, p, q);
    }
    forall v: nat | v < k.n
      ensures PowerMod(PowerMod(v, k.e, k.n), k.d, k.n) == v
    {
      PowerModTwice(v, k.e, k.d, k.n);
      RsaIdentity(p, q, k.e, k.d, v);
    }
  }

  /** For distinct primes the totient is at least two, so the inverse d is not zero. */
  lemma TotientAtLeastTwo(p: nat, q: nat)
    requires p >= 2 && q >= 2 && p != q
    ensures Totient(p, q) >= 2
  {
    if p > 2 {
      MulMonotone(2, p - 1, q - 1);
    } else {
      MulMonotone(2, q - 1, p - 1);
    }
  }

  /** The private exponent of a derived key is at least one when the totient is at least two. */
  lemma PrivateExponentPositive(k: Key, p: nat, q: nat)
    requires p >= 2 && q >= 2 && p != q && DerivedFrom(k, p, q)
    ensures k.d >= 1
  {
    TotientAtLeastTwo(p, q);
    DivModUnique(1, Totient(p, q), 0, 1);
  }

  /** A valid key also works the other way round: d first, then e. */
  lemma ValidKeySwapped(k: Key)
    requires ValidKey(k)
    ensures ValidKey(Key(k.n, k.d, k.e))
  {
    forall v: nat | v < k.n
      ensures PowerMod(PowerMod(v, k.d, k.n), k.e, k.n) == v
    {
      PowerModTwice(v, k.d, k.e, k.n);
      PowerModTwice(v, k.e, k.d, k.n);
      assert k.d * k.e == k.e * k.d;
    }
  }

  // ---------------------------------------------------------------------
  // Blocks (rsa.cpp:46-48)

  /** RSA_process_block: the block raised to the key, modulo n. */
  function ProcessBlock(block: nat, key: nat, n: nat): (r: nat)
    requires n > 1
  {
    PowerMod(block, key, n)
  }

  /** The block operation is v^k mod n and lands in [0, n). */
  lemma ProcessBlockRange(block: nat, key: nat, n: nat)
    requires n > 1
    ensures ProcessBlock(block, key, n) == Pow(block, key) % n < n
  {
  }

  /** Decrypting an encrypted block below n with a valid key gives the block back. */
  lemma BlockRoundTrip(k: Key, v: nat)
    requires ValidKey(k) && v < k.n
    ensures ProcessBlock(ProcessBlock(v, k.e, k.n), k.d, k.n) == v
  {
  }

  // ---------------------------------------------------------------------
  // Chunks of the input file (rsa.cpp:21, 59-68)

  /** Number of bytes per encryption block. */
  const GroupSize: nat := 10

  /** The input cut into consecutive chunks of GroupSize bytes, the last one possibly shorter. */
  function Chunks(s: seq<Byte>): (r: seq<seq<Byte>>)
    ensures s != [] ==> r != []
    decreases |s|
  {
    if s == [] then []
    else if |s| <= GroupSize then [s]
    else [s[..GroupSize]] + Chunks(s[GroupSize..])
  }

  function Flatten(cs: seq<seq<Byte>>): seq<Byte>
  {
    if cs == [] then [] else cs[0] + Flatten(cs[1..])
  }

  /** Every chunk but the last has GroupSize bytes; the last has between one and GroupSize. */
  predicate WellChunked(cs: seq<seq<Byte>>)
  {
    forall i :: 0 <= i < |cs| ==> 0 < |cs[i]| <= GroupSize && (i < |cs| - 1 ==> |cs[i]| == GroupSize)
  }

  /** The chunks concatenate back to the input and have the sizes the reads produce. */
  lemma {:induction false} ChunksShape(s: seq<Byte>)
    ensures Flatten(Chunks(s)) == s
    ensures WellChunked(Chunks(s))
    decreases |s|
  {
    if |s| > GroupSize {
      ChunksShape(s[GroupSize..]);
      assert s == s[..GroupSize] + s[GroupSize..];
    }
  }

  /** The cipher numbers of the chunks, one per chunk. */
  function Ciphers(cs: seq<seq<Byte>>, e: nat, n: nat): (r: seq<nat>)
    requires n > 1
    ensures |r| == |cs|
  {
    if cs == [] then [] else [ProcessBlock(ZZFromBytes(cs[0]), e, n)] + Ciphers(cs[1..], e, n)
  }

  function Min(a: nat, b: nat): nat
  {
    if a <= b then a else b
  }

  /**
   * The chunks of the input from position pos on, when a chunk boundary
   * falls at pos: the chunk there followed by the chunks after it.
   */
  lemma ChunksFrom(input: seq<Byte>, pos: nat)
    requires pos < |input|
    ensures Chunks(input[pos..]) == [input[pos..pos + Min(GroupSize, |input| - pos)]] + Chunks(input[pos + Min(GroupSize, |input| - pos)..])
  {
    var s := input[pos..];
    if |s| > GroupSize {
      assert s[GroupSize..] == input[pos + GroupSize..];
      assert s[..GroupSize] == input[pos..pos + GroupSize];
    } else {
      assert input[pos..pos + |s|] == s;
      assert input[pos + |s|..] == [];
    }
  }

  /** The cipher numbers from position pos on: that of the chunk at pos, then the rest. */
  lemma CiphersFrom(input: seq<Byte>, pos: nat, e: nat, n: nat)
    requires pos < |input| && n > 1
    ensures var g := Min(GroupSize, |input| - pos);
      Ciphers(Chunks(input[pos..]), e, n)
        == [ProcessBlock(ZZFromBytes(input[pos..pos + g]), e, n)] + Ciphers(Chunks(input[pos + g..]), e, n)
  {
    ChunksFrom(input, pos);
  }

  /**
   * RSA_encrypt (rsa.cpp:51-74) as written: reads the input ten bytes at a
   * time, writes the cipher number of each chunk, then writes
   * last_group_size as a trailer. The loop ends only once a read has
   * returned nothing and set last_group_size to gcount() = 0, so the
   * trailer is always 0.
   */
  method Encrypt(e: nat, n: nat, input: seq<Byte>) returns (lines: seq<nat>)
    requires n > 1
    ensures lines == Ciphers(Chunks(input), e, n) + [0]
    ensures lines[|lines| - 1] == 0
    ensures input == [] ==> lines == [0]
  {
    lines := [];
    var pos := 0;
    var lastGroupSize := 0;
    var got := Min(GroupSize, |input|);
    if got < GroupSize {
      lastGroupSize := got;
    }
    while got == GroupSize || lastGroupSize != 0
      invariant 0 <= pos <= |input|
      invariant got == Min(GroupSize, |input| - pos)
      invariant got < GroupSize ==> lastGroupSize == got
      invariant Ciphers(Chunks(input), e, n) == lines + Ciphers(Chunks(input[pos..]), e, n)
      decreases |input| - pos
    {
      ghost var (before, at) := (lines, pos);
      var chunk := input[pos..pos + got];
      var cipher := ProcessBlock(ZZFromBytes(chunk), e, n);
      lines := lines + [cipher];
      pos := pos + got;
      EncryptStep(input, at, before, e, n);
      got := Min(GroupSize, |input| - pos);
      if got < GroupSize {
        lastGroupSize := got;
      }
    }
    assert input[pos..] == [];
    lines := lines + [lastGroupSize];
  }

  /** One pass of the read loop keeps the ciphers written so far a prefix of those of all chunks. */
  lemma EncryptStep(input: seq<Byte>, pos: nat, lines: seq<nat>, e: nat, n: nat)
    requires pos < |input| && n > 1
    requires Ciphers(Chunks(input), e, n) == lines + Ciphers(Chunks(input[pos..]), e, n)
    ensures var g := Min(GroupSize, |input| - pos);
      Ciphers(Chunks(input), e, n)
        == (lines + [ProcessBlock(ZZFromBytes(input[pos..pos + g]), e, n)]) + Ciphers(Chunks(input[pos + g..]), e, n)
  {
    var g := Min(GroupSize, |input| - pos);
    CiphersFrom(input, pos, e, n);
    Regroup(lines, ProcessBlock(ZZFromBytes(input[pos..pos + g]), e, n), Ciphers(Chunks(input[pos + g..]), e, n));
  }

  lemma Regroup(a: seq<nat>, x: nat, b: seq<nat>)
    ensures a + ([x] + b) == (a + [x]) + b
  {
  }

  /** Encryption as evidently intended: the trailer is the size of the last chunk. */
  function EncryptIntended(e: nat, n: nat, input: seq<Byte>): seq<nat>
    requires n > 1
  {
    var cs := Chunks(input);
    Ciphers(cs, e, n) + [if cs == [] then 0 else |cs[|cs| - 1]|]
  }

  // ---------------------------------------------------------------------
  // Decryption (rsa.cpp:77-104)

  /**
   * Decryption as evidently intended: each number but the last two gives
   * GroupSize bytes of its decryption, and the number read just before the
   * trailer gives as many bytes as the trailer says. The last block is told
   * by counting numbers, not characters: it is the one with exactly one
   * number, the trailer, after it. RSA_decrypt instead compares the
   * characters left with 10, so a cipher shorter than 10 digits can be taken
   * for the trailer (DecryptAsWritten). A file with a single number has that
   * number read as a block, and the trailer read after it fails and leaves 0.
   */
  function Decoded(lines: seq<nat>, d: nat, n: nat): seq<Byte>
    requires n > 1
  {
    if lines == [] then []
    else if |lines| == 1 then BytesFromZZ(ProcessBlock(lines[0], d, n), 0)
    else if |lines| == 2 then BytesFromZZ(ProcessBlock(lines[0], d, n), lines[1])
    else BytesFromZZ(ProcessBlock(lines[0], d, n), GroupSize) + Decoded(lines[1..], d, n)
  }

  /** The number of decimal digits `out << x` writes for x. */
  function DecimalLength(x: nat): (r: nat)
    ensures r >= 1 && x < Pow(10, r)
    ensures x >= 10 ==> r >= 2 && Pow(10, r - 1) <= x
  {
    if x < 10 then 1
    else
      var r := 1 + DecimalLength(x / 10);
      DecimalLengthStep(x, r - 1);
      r
  }

  lemma DecimalLengthStep(x: nat, k: nat)
    requires x >= 10 && k >= 1 && x / 10 < Pow(10, k)
    requires x / 10 < 10 ==> k == 1
    requires x / 10 >= 10 ==> Pow(10, k - 1) <= x / 10
    ensures x < Pow(10, k + 1) && Pow(10, k) <= x
  {
    assert Pow(10, k + 1) == 10 * Pow(10, k);
    assert Pow(10, k) == 10 * Pow(10, k - 1);
  }

  /** The characters of cipher-file lines: each number's digits and the newline `endl` writes. */
  function TextLength(lines: seq<nat>): nat
  {
    if lines == [] then 0 else DecimalLength(lines[0]) + 1 + TextLength(lines[1..])
  }

  /** Every line takes at least two characters. */
  lemma {:induction false} TextLengthAtLeast(lines: seq<nat>)
    ensures TextLength(lines) >= 2 * |lines|
  {
    if lines != [] {
      TextLengthAtLeast(lines[1..]);
    }
  }

  /**
   * end_pos - current_pos in RSA_decrypt once number i has been read: the
   * reader stops after its last digit, so its newline and every later line
   * remain.
   */
  function Following(lines: seq<nat>, i: nat): nat
    requires i < |lines|
  {
    1 + TextLength(lines[i + 1..])
  }

  /**
   * What RSA_decrypt (rsa.cpp:88-102) writes, as written, from number i on
   * with last_group_size equal to size. After each number it seeks to the
   * end of the file. Only when fewer than ten characters follow does it seek
   * back and read last_group_size from the next number; a failed read
   * leaves 0. Otherwise the stream stays at the end: the block is written
   * with the current size and the next read ends the loop.
   */
  function DecryptFrom(lines: seq<nat>, i: nat, size: nat, d: nat, n: nat): seq<Byte>
    requires n > 1
    decreases |lines| - i
  {
    if i >= |lines| then []
    else
      var plain := ProcessBlock(lines[i], d, n);
      if Following(lines, i) >= 10 then BytesFromZZ(plain, size)
      else if i + 1 < |lines| then BytesFromZZ(plain, lines[i + 1]) + DecryptFrom(lines, i + 2, lines[i + 1], d, n)
      else BytesFromZZ(plain, 0)
  }

  /** The whole output of RSA_decrypt as written, starting with last_group_size = group_size. */
  function DecryptAsWritten(lines: seq<nat>, d: nat, n: nat): seq<Byte>
    requires n > 1
  {
    DecryptFrom(lines, 0, GroupSize, d, n)
  }

  /**
   * RSA_decrypt (rsa.cpp:75-105): reads a number, decrypts it, and measures
   * how much of the file follows; atEnd records that the stream was left at
   * the end of the file, where the next read fails.
   */
  method Decrypt(d: nat, n: nat, lines: seq<nat>) returns (out: seq<Byte>)
    requires n > 1
    ensures out == DecryptAsWritten(lines, d, n)
  {
    out := [];
    var lastGroupSize := GroupSize;
    var pos := 0;
    var atEnd := false;
    while pos < |lines| && !atEnd
      invariant pos <= |lines|
      invariant atEnd ==> out == DecryptAsWritten(lines, d, n)
      invariant !atEnd ==> out + DecryptFrom(lines, pos, lastGroupSize, d, n) == DecryptAsWritten(lines, d, n)
      decreases |lines| - pos
    {
      var plain := ProcessBlock(lines[pos], d, n);
      ghost var rest := DecryptFrom(lines, pos, lastGroupSize, d, n);
      if Following(lines, pos) < 10 {
        if pos + 1 < |lines| {
          lastGroupSize := lines[pos + 1];
          pos := pos + 2;
        } else {
          lastGroupSize := 0;
          pos := pos + 1;
        }
        out := out + BytesFromZZ(plain, lastGroupSize);
        assert rest == BytesFromZZ(plain, lastGroupSize) + DecryptFrom(lines, pos, lastGroupSize, d, n);
      } else {
        atEnd := true;
        pos := pos + 1;
        out := out + BytesFromZZ(plain, lastGroupSize);
      }
    }
  }

  /**
   * With every line of a file that the encryption wrote, as written: a file
   * of at most ten bytes gives one number and the trailer 0, so the trailer
   * read after the block leaves nothing to write.
   */
  lemma ShortFileLost(k: Key, input: seq<Byte>)
    requires k.n > 1 && |input| <= GroupSize
    ensures DecryptAsWritten(Ciphers(Chunks(input), k.e, k.n) + [0], k.d, k.n) == []
  {
    if input == [] {
      assert Ciphers(Chunks(input), k.e, k.n) + [0] == [0];
      TrailerOnly(k.d, k.n);
    } else {
      var c := ProcessBlock(ZZFromBytes(input), k.e, k.n);
      assert Chunks(input) == [input];
      assert Ciphers(Chunks(input), k.e, k.n) + [0] == [c, 0];
      BlockThenZero(c, k.d, k.n);
    }
  }

  lemma TrailerOnly(d: nat, n: nat)
    requires n > 1
    ensures DecryptAsWritten([0], d, n) == []
  {
    assert [0][1..] == [];
  }

  lemma BlockThenZero(c: nat, d: nat, n: nat)
    requires n > 1
    ensures DecryptAsWritten([c, 0], d, n) == []
  {
    var lines := [c, 0];
    assert lines[1..] == [0];
    assert TextLength([0]) == 2 by {
      assert [0][1..] == [];
      assert DecimalLength(0) == 1;
    }
    assert Following(lines, 0) == 3;
    assert |BytesFromZZ(ProcessBlock(c, d, n), 0)| == 0;
    assert DecryptFrom(lines, 2, 0, d, n) == [];
  }

  /**
   * As written, when ten or more characters follow the first number, the
   * stream stays at the end of the file after it: a file of more than ten
   * bytes decrypts to its first ten bytes.
   */
  lemma FirstBlockOnly(k: Key, input: seq<Byte>)
    requires ValidKey(k) && Pow(256, GroupSize) <= k.n && |input| > GroupSize
    requires Following(Ciphers(Chunks(input), k.e, k.n) + [0], 0) >= 10
    ensures DecryptAsWritten(Ciphers(Chunks(input), k.e, k.n) + [0], k.d, k.n) == input[..GroupSize]
  {
    var cs := Chunks(input);
    assert cs[0] == input[..GroupSize];
    BlockRecovered(cs[0], k);
    BytesRoundTrip(cs[0]);
  }

  /**
   * A file of more than forty bytes has at least five chunks, so at least
   * ten characters follow the first number: as written, it decrypts to its
   * first ten bytes.
   */
  lemma LongFileKeepsFirstChunk(k: Key, input: seq<Byte>)
    requires ValidKey(k) && Pow(256, GroupSize) <= k.n && |input| > 4 * GroupSize
    ensures DecryptAsWritten(Ciphers(Chunks(input), k.e, k.n) + [0], k.d, k.n) == input[..GroupSize]
  {
    var lines := Ciphers(Chunks(input), k.e, k.n) + [0];
    ChunkCount(input);
    TextLengthAtLeast(lines[1..]);
    FirstBlockOnly(k, input);
  }

  /** Chunks of at most GroupSize bytes cover the input. */
  lemma {:induction false} ChunkCount(s: seq<Byte>)
    ensures |s| <= GroupSize * |Chunks(s)|
  {
    if |s| > GroupSize {
      ChunkCount(s[GroupSize..]);
    }
  }

  /**
   * Decrypting the cipher numbers of well-sized chunks, followed by a
   * trailer t, gives all chunks but the last in full and t bytes of the last.
   */
  lemma {:induction false} DecodeCiphers(cs: seq<seq<Byte>>, t: nat, k: Key)
    requires ValidKey(k) && Pow(256, GroupSize) <= k.n
    requires WellChunked(cs)
    ensures cs == [] ==> Decoded(Ciphers(cs, k.e, k.n) + [t], k.d, k.n) == []
    ensures cs != [] ==>
              Decoded(Ciphers(cs, k.e, k.n) + [t], k.d, k.n) == Flatten(cs[..|cs| - 1]) + BytesFromZZ(ZZFromBytes(cs[|cs| - 1]), t)
  {
    if cs == [] {
      DecodeEmpty(t, k);
    } else if |cs| == 1 {
      DecodeSingle(cs, t, k);
    } else {
      WellChunkedTail(cs);
      DecodeCiphers(cs[1..], t, k);
      DecodeHead(cs, t, k);
      FlattenInit(cs);
      ConcatAssoc(cs[0], Flatten(cs[1..][..|cs| - 2]), BytesFromZZ(ZZFromBytes(cs[|cs| - 1]), t));
    }
  }

  lemma DecodeEmpty(t: nat, k: Key)
    requires k.n > 1
    ensures Decoded(Ciphers([], k.e, k.n) + [t], k.d, k.n) == []
  {
    assert Ciphers([], k.e, k.n) + [t] == [t];
  }

  lemma ConcatAssoc(a: seq<Byte>, b: seq<Byte>, c: seq<Byte>)
    ensures a + (b + c) == (a + b) + c
  {
  }

  lemma DecodeSingle(cs: seq<seq<Byte>>, t: nat, k: Key)
    requires ValidKey(k) && Pow(256, GroupSize) <= k.n
    requires |cs| == 1 && |cs[0]| <= GroupSize
    ensures Decoded(Ciphers(cs, k.e, k.n) + [t], k.d, k.n) == Flatten(cs[..0]) + BytesFromZZ(ZZFromBytes(cs[0]), t)
  {
    BlockRecovered(cs[0], k);
    var lines := Ciphers(cs, k.e, k.n) + [t];
    assert lines == [ProcessBlock(ZZFromBytes(cs[0]), k.e, k.n), t];
    assert cs[..0] == [];
  }

  lemma WellChunkedTail(cs: seq<seq<Byte>>)
    requires WellChunked(cs) && cs != []
    ensures WellChunked(cs[1..]) && |cs[0]| <= GroupSize
    ensures |cs| >= 2 ==> |cs[0]| == GroupSize
  {
    assert forall i :: 0 <= i < |cs| - 1 ==> cs[1..][i] == cs[i + 1];
  }

  /** A full first chunk is decrypted in full, ahead of the rest of the lines. */
  lemma DecodeHead(cs: seq<seq<Byte>>, t: nat, k: Key)
    requires ValidKey(k) && Pow(256, GroupSize) <= k.n
    requires |cs| >= 2 && |cs[0]| == GroupSize
    ensures Decoded(Ciphers(cs, k.e, k.n) + [t], k.d, k.n)
            == cs[0] + Decoded(Ciphers(cs[1..], k.e, k.n) + [t], k.d, k.n)
  {
    var lines := Ciphers(cs, k.e, k.n) + [t];
    BlockRecovered(cs[0], k);
    BytesRoundTrip(cs[0]);
    assert lines[0] == ProcessBlock(ZZFromBytes(cs[0]), k.e, k.n);
    assert lines[1..] == Ciphers(cs[1..], k.e, k.n) + [t];
  }

  lemma FlattenInit(cs: seq<seq<Byte>>)
    requires |cs| >= 2
    ensures Flatten(cs[..|cs| - 1]) == cs[0] + Flatten(cs[1..][..|cs| - 2])
  {
    assert cs[..|cs| - 1] == [cs[0]] + cs[1..][..|cs| - 2];
  }

  /** A chunk of at most GroupSize bytes survives encryption and decryption. */
  lemma BlockRecovered(b: seq<Byte>, k: Key)
    requires ValidKey(k) && Pow(256, GroupSize) <= k.n && |b| <= GroupSize
    ensures ProcessBlock(ProcessBlock(ZZFromBytes(b), k.e, k.n), k.d, k.n) == ZZFromBytes(b)
  {
    PowMonotone(|b|);
  }

  lemma PowMonotone(j: nat)
    requires j <= GroupSize
    ensures Pow(256, j) <= Pow(256, GroupSize)
  {
    if j < GroupSize {
      PowStrictlyIncreasing(256, j, GroupSize);
    }
  }

  /** Flattening all chunks is flattening all but the last, then the last. */
  lemma {:induction false} FlattenSnoc(cs: seq<seq<Byte>>)
    requires cs != []
    ensures Flatten(cs) == Flatten(cs[..|cs| - 1]) + cs[|cs| - 1]
  {
    if |cs| > 1 {
      FlattenSnoc(cs[1..]);
      assert cs[1..][..|cs| - 2] == cs[..|cs| - 1][1..];
    }
  }

  /**
   * Even when the last block is told by counting numbers (Decoded), the trailer 0
   * that the encryption writes makes the block read before it contribute no
   * bytes: the output is the input without its last chunk, shorter than a
   * non-empty input.
   */
  lemma LastBlockLost(k: Key, input: seq<Byte>)
    requires ValidKey(k) && Pow(256, GroupSize) <= k.n
    requires input != []
    ensures var cs := Chunks(input);
      Decoded(Ciphers(cs, k.e, k.n) + [0], k.d, k.n) + cs[|cs| - 1] == input
    ensures |Decoded(Ciphers(Chunks(input), k.e, k.n) + [0], k.d, k.n)| < |input|
  {
    var cs := Chunks(input);
    ChunksShape(input);
    var last := cs[|cs| - 1];
    var decoded := Decoded(Ciphers(cs, k.e, k.n) + [0], k.d, k.n);
    assert decoded == Flatten(cs[..|cs| - 1]) by {
      DecodeCiphers(cs, 0, k);
      assert BytesFromZZ(ZZFromBytes(last), 0) == [];
    }
    assert input == decoded + last by {
      FlattenSnoc(cs);
    }
    assert |last| > 0;
  }

  /**
   * With the trailer recording the size of the last chunk, decrypting the
   * encryption of any file returns the file, for a valid key whose modulus
   * exceeds every ten-byte chunk.
   */
  lemma RoundTrip(k: Key, input: seq<Byte>)
    requires ValidKey(k) && Pow(256, GroupSize) <= k.n
    ensures Decoded(EncryptIntended(k.e, k.n, input), k.d, k.n) == input
  {
    var cs := Chunks(input);
    ChunksShape(input);
    DecodeCiphers(cs, if cs == [] then 0 else |cs[|cs| - 1]|, k);
    if cs != [] {
      FlattenSnoc(cs);
      BytesRoundTrip(cs[|cs| - 1]);
    }
  }

  /**
   * Primes of at least 512 bits, as RSA_key draws, give a modulus above
   * every ten-byte chunk.
   */
  lemma ModulusExceedsChunks(p: nat, q: nat)
    requires Pow(2, 511) <= p && Pow(2, 511) <= q
    ensures Pow(256, GroupSize) <= p * q
  {
    PowMul(2, 8, GroupSize);
    PowStrictlyIncreasing(2, 80, 511);
    PowPositive(2, 511);
    MulMonotone(1, q, p);
  }
}
