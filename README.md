# CryptoBasics in Dafny

A model of the arithmetic core of CryptoBasics-Cpp. The repository has four
small console programs:

- `sha1.cpp`: SHA-1 over a byte string, returning the digest as 40 uppercase
  hexadecimal characters.
- `rsa.cpp`: textbook RSA key derivation, plus encryption and decryption of a
  file in 10-byte chunks, with one decimal number per line and a trailer line.
- `rsa_signature.cpp`: signs the SHA-1 digest of a file, read as a base-16
  number, and verifies the signature.
- `rsa_certificate.cpp`: a trusted authority binds a subject's ID and public
  exponent into one number, signs it and writes a six-line certificate. A
  verifier recomputes the binding and checks the signature.

The Dafny modules follow those files:

| module | file | contents |
|---|---|---|
| `Fips180` | `fips180.dfy` | SHA-1 as FIPS 180-4 defines it over `bv32` words: padding (section 5.1.1), the schedule and rounds (section 6.1.2), the digest. This is the reference the model of `sha1.cpp` is proved against. |
| `Sha1Hex` | `sha1_hex.dfy` | `HexToString` as a loop, its specification `Hex`, and reading hexadecimal text back. |
| `Sha1` | `sha1.cpp` → `sha1.dfy` | `ROLT`, `K`, `f` and `SHA_1` over the `long long` registers of the source (`bv64`, arithmetic `>>`). |
| `NumberTheory` | `number_theory.dfy` | Powers, gcd, extended Euclid, Fermat's little theorem and the RSA identity. |
| `Ntl` | `ntl.dfy` | The NTL calls the programs make: `PowerMod`, `InvModStatus`, `NumBits`, `ZZFromBytes`, `BytesFromZZ`, each specified by its mathematical meaning. |
| `Rsa` | `rsa.dfy` | Key derivation, the block operation, chunking, `RSA_encrypt` and `RSA_decrypt` over sequences. |
| `RsaSignature` | `rsa_signature.dfy` | The digest-to-number loop, `RSA_sign` and `RSA_ver`. |
| `RsaCertificate` | `rsa_certificate.dfy` | The binding, `getCRT`, the certificate record and `verCRT`. |

`Wrappers` (`wrappers.dfy`) holds an `Option` type.

How the source's imperative code becomes Dafny:

- Loops become methods with invariants: padding, loading and expanding the schedule, the 80 rounds, the feed-forward into `H`, the chunk loop, the hex output, the key-derivation retry loop, the encryption and decryption loops, and the digest fold in `RSA_sign`. Each method's `ensures` ties its result to a specification function whose properties are proved separately.
- `W` and `H` stay arrays. The sign-extending `long long` arithmetic is kept in `bv64` with the source's masks and its arithmetic right shift.
- The key loop appears three times in the source, at `rsa.cpp:37-39`, `rsa_signature.cpp:43-47` and `rsa_certificate.cpp:44-48`. It is modelled once, by `Rsa.DeriveKey`.
- Randomness becomes parameters: the primes `p` and `q`, and the sequence of values `RandomBnd` draws. Files become values: a byte sequence in, a sequence of numbers out, and a certificate record.

## Model

| member | source | states |
|---|---|---|
| Sha1.Rolt | sha1.cpp:26-28 | The rotation is always below 2^32, and on a 32-bit value it is ROTL of FIPS 180-4 section 3.2. |
| Sha1.K | sha1.cpp:31-37 | Rounds 0..79 get the FIPS 180-4 constant of their group of twenty. Negative rounds fall into the first test and get 0x5A827999. Rounds from 80 on get 0. |
| Sha1.FMatchesSpec | sha1.cpp:40-51 | On 32-bit words, f is Ch for rounds below 20, Parity for 20..39 and 60..79, and Maj for 40..59. Its result stays a 32-bit value although `~B` sets the high 32 bits. |
| Sha1.RoundTempIsT | sha1.cpp:104 | The masked sum assigned to `temp` is T of FIPS 180-4 section 6.1.2 on 32-bit registers. |
| Sha1.LengthBytesAreBigEndian | sha1.cpp:80 | Byte i that the shift-and-mask computes is byte i of the 64-bit big-endian length field. |
| Sha1.AppendLength | sha1.cpp:79-81 | The loop appends exactly the big-endian bytes of the bit length. |
| Sha1.PadMessage | sha1.cpp:69-81 | The padding loops produce the padded message of FIPS 180-4 section 5.1.1. The `size_t` bit count wraps modulo 2^64. |
| Fips180.PadShape | sha1.cpp:69-81 | The padded message is the input, 0x80, zero bytes and the 64-bit big-endian bit length. Its length is a multiple of 64 and between 9 and 72 bytes more than the input. |
| Sha1.LoadWords | sha1.cpp:86-91 | With the unsigned load, W[0..15] hold the chunk's sixteen big-endian words, zero-extended. The source sign-extends a word whose first byte is 0x80 or more (see the findings). |
| Sha1.ScheduleExpands | sha1.cpp:93-95 | From word 16 on, the FIPS 180-4 schedule satisfies W_t = ROTL^1(W_{t-3} ^ W_{t-8} ^ W_{t-14} ^ W_{t-16}). |
| Sha1.ExpandWords | sha1.cpp:93-95 | The expansion loop fills W[16..79] with the schedule words, each below 2^32. |
| Sha1.LoadSchedule | sha1.cpp:85-95 | With the unsigned load, a fresh W holds the whole message schedule W_0..W_79 of the chunk. |
| Sha1.RoundStep | sha1.cpp:104-109 | One round on registers holding the working variables gives the next working variables of FIPS 180-4. |
| Sha1.RunRounds | sha1.cpp:97-110 | After the 80 rounds, A..E hold the working variables after the 80 steps of section 6.1.2, so they stay below 2^32. |
| Sha1.AddMaskedWords | sha1.cpp:113-117 | `(H[i] + X) & 0xFFFFFFFF` on 32-bit values is addition modulo 2^32. |
| Sha1.FeedForwardInto | sha1.cpp:113-117 | Each H[i] becomes the matching word of H plus the working variables, modulo 2^32. |
| Sha1.CompressChunk | sha1.cpp:97-117 | The rounds and feed-forward of one chunk take H from a hash value to its FIPS 180-4 compression. |
| Sha1.InitialWords | sha1.cpp:65-67 | The initial H is H(0) of FIPS 180-4 section 5.3.1. |
| Sha1.ProcessChunks | sha1.cpp:84-118 | With the unsigned load, the chunk loop starts from H(0) and leaves in H the hash value after every 64-byte chunk. |
| Sha1Hex.HexToString | sha1.cpp:54-60 | The loop builds the len-digit uppercase hexadecimal form of the value, most significant digit first. |
| Sha1Hex.HexAlphabet | sha1.cpp:54-60 | That form has exactly len characters, all from "0123456789ABCDEF". |
| Sha1Hex.HexRoundTrip | sha1.cpp:54-60 | Reading the len digits back gives the low 4·len bits of the value. |
| Sha1Hex.HexWordRoundTrip | sha1.cpp:123 | For a value below 2^32, its eight digits read back as the value itself. |
| Sha1.HexOfWords | sha1.cpp:121-124 | The output loop concatenates the eight-digit forms of H[0..4]. |
| Sha1.Hash | sha1.cpp:63-126 | The corrected SHA_1 (unsigned word load) returns the FIPS 180-4 digest of its input as text. |
| Sha1.DigestHexReadsBack | sha1.cpp:121-125 | The digest text has 40 characters from the uppercase alphabet. Characters 8k..8k+7 read back as digest word k. |
| Sha1.LoadWordAsWrittenAgrees | sha1.cpp:87-90 | The signed load as written equals the unsigned load exactly when the first byte is below 0x80. Otherwise the high 32 bits of the word are all ones. |
| Sha1.ExpandSignExtended | sha1.cpp:94 | ROLT's arithmetic shift turns a sign-extended word 0x80000000 into expansion output 0xFFFFFFFF, where FIPS 180-4 gives 1. |
| Sha1.EmptyMessageAsWritten | sha1.cpp:87-94 | As written, W[16] of the empty message's only block is 0xFFFFFFFF. |
| Sha1.EmptyMessageIntended | sha1.cpp:87-94 | With the unsigned load, W[16] of the empty message is 1. |
| Sha1.EmptyMessageSchedule | sha1.cpp:93-95 | FIPS 180-4 gives W_16 = 1 for the empty message. |
| Ntl.PowerMod | rsa.cpp:46-48 | Square-and-multiply computes a^e mod n and lands in [0, n). |
| Ntl.PowerModTwice | rsa.cpp:46-48 | Two block operations in a row raise to the product of the exponents, modulo n. |
| Ntl.InvModStatus | rsa.cpp:37-39 | Status 0 exactly when gcd(e, euler) = 1, and then d in [0, euler) with e·d ≡ 1. Otherwise status 1 and the gcd. |
| Ntl.NoInverseOnFailure | rsa.cpp:37-39 | When the status is nonzero, no inverse of e modulo euler exists at all. |
| Ntl.NumBits | rsa_certificate.cpp:54 | The bit length: 0 only for 0, and 2^(r-1) <= x < 2^r otherwise. |
| Ntl.BelowPowerOfTen | rsa_certificate.cpp:54 | e < 10^(NumBits(e)+1), so e fits in the decimal digits the binding leaves for it. |
| Ntl.ZZFromBytes | rsa.cpp:65 | k bytes read little-endian give a value below 256^k. |
| Ntl.BytesFromZZ | rsa.cpp:100 | Exactly k bytes are produced. |
| Ntl.BytesRoundTrip | rsa.cpp:65-100 | Writing back as many bytes as were read returns the bytes read. |
| Ntl.ZZRoundTrip | rsa.cpp:65-100 | Reading back k written bytes gives the value modulo 256^k. |
| Rsa.Totient | rsa.cpp:33 | euler = (p-1)(q-1) is at least one for p, q >= 2. |
| Rsa.TotientAtLeastTwo | rsa.cpp:33 | For distinct p, q >= 2, euler is at least two. |
| Rsa.DeriveKey | rsa.cpp:32-39 | The retry loop returns n = p·q and the first drawn e coprime to euler, with d its inverse: e·d ≡ 1 (mod euler), e, d < euler. It finds no key only when no draw is coprime. |
| Rsa.PrivateExponentPositive | rsa.cpp:37-39 | The derived d is at least one. |
| NumberTheory.RsaIdentity | rsa.cpp:32-39 | For distinct primes p, q and e·d ≡ 1 mod (p-1)(q-1), v^(e·d) ≡ v (mod pq) for every v < pq. |
| Rsa.DerivedKeyValid | rsa.cpp:24-39 | A key derived from distinct primes is valid: decryption undoes encryption for every block below n. |
| Rsa.ValidKeySwapped | rsa_certificate.cpp:102-104 | A valid key also works with d applied first and e second. |
| Rsa.ProcessBlockRange | rsa.cpp:46-48 | The block operation is v^k mod n in [0, n). |
| Rsa.BlockRoundTrip | rsa.cpp:66-89 | Under a valid key, decrypting the encrypted block returns every v < n. |
| Rsa.ChunksShape | rsa.cpp:59-68 | The chunks concatenate back to the input. Every chunk but the last has 10 bytes, and the last has 1 to 10. |
| Rsa.ModulusExceedsChunks | rsa.cpp:28-32 | With both primes of 512 bits, every 10-byte chunk value (below 256^10) is below n. |
| Rsa.Encrypt | rsa.cpp:51-72 | One cipher line per chunk, the encrypted chunk value, followed by a trailer that is always 0. An empty input gives only the trailer. |
| Rsa.DecimalLength | rsa.cpp:67 | The digit count of a number written in decimal: x < 10^r, and 10^(r-1) <= x once x has two digits. |
| Rsa.TextLengthAtLeast | rsa.cpp:67-70 | Every cipher-file line, digits plus newline, takes at least two characters. |
| Rsa.Decrypt | rsa.cpp:75-105 | As written: after each number the loop compares the rest of the file with 10 characters. With 10 or more left, it writes the block with the current size and stops, because the stream stays at the end. With fewer, it reads the next number as the size, or 0 if none is left, and writes that many bytes. |
| Rsa.ShortFileLost | rsa.cpp:64-101 | As written, a file of at most 10 bytes decrypts to nothing: the trailer 0 follows its only block. |
| Rsa.FirstBlockOnly | rsa.cpp:91-101 | As written, a file of more than 10 bytes with 10 or more characters after its first number decrypts to exactly its first 10 bytes. |
| Rsa.ChunkCount | rsa.cpp:64 | The input is at most 10 bytes per chunk long: its length is at most 10 times the number of chunks. |
| Rsa.LongFileKeepsFirstChunk | rsa.cpp:91-101 | As written, every file of more than 40 bytes decrypts to exactly its first 10 bytes. |
| Rsa.DecodeCiphers | rsa.cpp:88-101 | When the last block is the one followed by exactly one number, the trailer, decryption returns all chunks but the last in full, then the last cut to the trailer's length. |
| Rsa.LastBlockLost | rsa.cpp:64-101 | Even when the last block is told by counting numbers, the trailer 0 still loses the whole last chunk, so the output is strictly shorter than a nonempty file. |
| Rsa.RoundTrip | rsa.cpp:64-101 | With the last chunk's size as trailer and the last block told by counting numbers, decryption of the encryption returns the input exactly. |
| RsaSignature.FoldIsPositional | rsa_signature.cpp:72-75 | Starting from 0, the fold `msg = 16·msg + digit` computes the base-16 value of the digits, most significant first. |
| RsaSignature.PositionalBounds | rsa_signature.cpp:72-75 | Digits of at most 15 give a value below 16^len. Nonnegative digits give a nonnegative value. |
| RsaSignature.LowercaseFold | rsa_signature.cpp:72-75 | A string of lowercase hex digits folds to its base-16 value in [0, 16^len). |
| RsaSignature.LowercaseDigits | rsa_signature.cpp:74 | On '0'..'9' and 'a'..'f' the digit map gives the hexadecimal value. |
| RsaSignature.UppercaseDigits | rsa_signature.cpp:74 | On 'A'..'F' the digit map gives -22..-17. |
| RsaSignature.AlphabetDigits | rsa_signature.cpp:74 | On the SHA-1 alphabet the map is negative exactly for the letters and never exceeds 9. The intended map is in [0, 16). |
| RsaSignature.NegativeLead | rsa_signature.cpp:72-75 | A negative leading digit with no digit above 15 makes the folded value negative. |
| RsaSignature.DigestAlphabet | rsa_signature.cpp:70 | The digest text has 40 characters from "0123456789ABCDEF". |
| RsaSignature.DigestNumberIntended | rsa_signature.cpp:70-75 | Read with the intended digit map, a digest is a number in [0, 16^40). |
| RsaSignature.DigestNumberAsWritten | rsa_signature.cpp:70-75 | Read with the source's digit map, a digest starting with a letter becomes negative. |
| RsaSignature.Sign | rsa_signature.cpp:51-79 | Without a readable file, msg and signature keep their values. Otherwise msg is the fold of the digest text and the signature is msg^a mod n, in [0, n). |
| RsaSignature.VerifyMeaning | rsa_signature.cpp:82-86 | Valid exactly when msg is in [0, n) and is signature^b mod n. |
| RsaSignature.SignVerifyRoundTrip | rsa_signature.cpp:95-101 | Under a valid key, a signature made with a verifies with b for every msg in [0, n). |
| RsaSignature.DigestSignatureVerifies | rsa_signature.cpp:70-84 | With the intended digit map and n >= 16^40, the signature of any file's digest verifies. |
| RsaSignature.DigestSignatureRejected | rsa_signature.cpp:70-84 | With the source's digit map, no signature verifies for a file whose digest starts with 'A'..'F'. |
| RsaSignature.FailedOpenReportsValid | rsa_signature.cpp:59-63 | If the file cannot be opened, msg and signature stay 0, and verification with the derived b reports them valid. |
| RsaCertificate.BindDecode | rsa_certificate.cpp:54 | The binding divided by 10^(NumBits(e)+1) gives the ID. The remainder gives e. |
| RsaCertificate.BindInjective | rsa_certificate.cpp:54 | For exponents of equal bit length, equal bindings mean equal IDs and exponents, and conversely. |
| RsaCertificate.BindSign | rsa_certificate.cpp:54 | The binding is nonnegative exactly when the ID is. |
| RsaCertificate.BindCollision | rsa_certificate.cpp:78 | ID 1000001 with e = 1 and ID 1 with e = 101 both bind to 100000101. |
| RsaCertificate.BitLengthIs | rsa_certificate.cpp:66 | NumBits(x) is the r with 2^(r-1) <= x < 2^r. |
| RsaCertificate.Issue | rsa_certificate.cpp:52-67 | The record holds the subject's ID, e and n, the signature bind^sig_TA mod n_TA in [0, n_TA), the authority's ID, and NumBits(e), which is 0 only for e = 0 and otherwise satisfies 2^(bits-1) <= e < 2^bits. |
| RsaCertificate.VerifyMeaning | rsa_certificate.cpp:70-84 | Valid exactly when the binding is in [0, n_TA) and equals s^e_TA mod n_TA. |
| RsaCertificate.IssueVerifyRoundTrip | rsa_certificate.cpp:100-104 | Issued with the authority's d and checked with its e, a certificate is valid whenever the binding is in [0, n_TA). |
| RsaCertificate.OutOfRangeRejected | rsa_certificate.cpp:80 | A negative ID, or a binding of at least n_TA, is never accepted. Nothing bounds the ID when it is entered. |
| RsaCertificate.VerifyIgnoresRest | rsa_certificate.cpp:75-80 | The subject's modulus, the authority's ID and the stored bit length never change the verdict. |
| RsaCertificate.CollisionForgery | rsa_certificate.cpp:75-80 | A certificate for ID 1000001 with e = 1 is valid exactly when the same signature is valid for ID 1 with e = 101. |
| RsaCertificate.MissingFileReportsValid | rsa_certificate.cpp:71-80 | A certificate file that cannot be read leaves every field 0, and verification reports it valid. |

## Left out

- Random draws (`RandomPrime`, `RandomBnd`, `SetSeed`) and primality testing: the primes and the drawn exponents are parameters. The bit-length choice at the prompt is reflected only in `Rsa.ModulusExceedsChunks`.
- Rsa.DeriveKey: the draws are a finite sequence, so the model can end without a key when no draw is coprime, where the source keeps drawing.
- Files, streams and the decimal text format: bytes come in as a sequence, cipher lines go out as a sequence of numbers, and the certificate is a record value. `rdbuf` slurping and open failures other than the ones modelled as `None` are not represented.
- Rsa.Decrypt: the cipher file is the sequence of its numbers. The stream positions come from their decimal lengths, with one newline after each number, as `endl` writes in binary mode. Two assumptions about NTL's reader: it stops right after a number's last digit, and a read at the end of the file fails. A failed read of `last_group_size` gives 0, as C++11 specifies.
- Rsa.DecodeCiphers: restoring the stream after the end-of-file test is not enough to obtain `Decoded`. The test still compares the characters left with 10, so a cipher shorter than 10 digits before the trailer is read as the size of the last block. `Decoded` is the decryption that tells the last block by counting numbers.
- Rsa.Decrypt: a trailer above 10 would overflow the 10-byte buffer in the source. The model writes as many bytes as the trailer says.
- Rsa.Encrypt: for full chunks the source reads `last_group_size` uninitialised (rsa.cpp:61, 64-65). This is undefined behaviour, so the model uses the chunk length of 10.
- Ntl.PowerMod: NTL expects the base already reduced into [0, n). The model returns the residue of the power for any integer base. A negative msg (see the findings) or an over-large binding is therefore reduced first, where NTL leaves the result unspecified.
- NTL's own algorithms: `PowerMod`, `InvModStatus`, `NumBits`, `ZZFromBytes` and `BytesFromZZ` are specified by what they compute, not by how NTL computes it.
- Sha1.LoadWords: it loads each word unsigned. The source sign-extends a word whose first byte is 0x80 or more (sha1.cpp:87-90). That load as written is modelled by `Sha1.LoadWordAsWritten` and the findings lemmas only.
- Sha1.LoadSchedule: its schedule is the FIPS 180-4 schedule of the unsigned load, not the schedule the sign-extending load gives.
- Sha1.ProcessChunks: the hash values it computes come from the unsigned load, so they are those of the corrected program.
- Sha1.Hash: it uses the unsigned (corrected) word load. The sign-extending load of the source appears only in `Sha1.LoadWordAsWritten` and the lemmas about it.
- RsaSignature.Sign: the digest comes from `Sha1.Hash`, so it is the FIPS 180-4 digest, not the output of the sign-extending load.
- SHA-1 known answers: the digests of "" and "abc" are not proved. Unfolding 80 rounds on concrete data is beyond what the verifier can do within its resource budget. The model proves equality with the FIPS 180-4 definitions for every input instead.
- Sha1Hex.HexToString: the digit count is at most 16, since longer counts shift a 64-bit value by 64 or more. The source only calls it with 8.
- All `main` functions, prompts and console output.

## Findings

| source | as written | input that shows it | evidently intended | confidence | as-written member | corrected member |
|---|---|---|---|---|---|---|
| sha1.cpp:87-90 | `static_cast<unsigned char>(b) << 24` is an `int`. When the first byte is 0x80 or more, it is negative and sign-extended into the `long long` W[j], and ROLT's arithmetic `>>` then copies ones into the low bits. | The empty message: its only block starts with 0x80, and W[16] becomes 0xFFFFFFFF instead of 1. | Load each word unsigned, giving the FIPS 180-4 schedule. | not executed | Sha1.EmptyMessageAsWritten | Sha1.EmptyMessageIntended |
| rsa.cpp:64-70 | The read loop stops only after a read that returns no bytes, so `last_group_size` is 0 when the trailer is written. Decryption then writes no bytes of the last block. | Any file of 1 to 10 bytes, for example a single byte: the lines are its cipher and 0, and decryption gives the empty file. | The trailer is the size of the last chunk, so that decryption returns the file. | not executed | Rsa.ShortFileLost | Rsa.RoundTrip |
| rsa.cpp:91-98 | After each block the stream is moved to the end of the file, and it is moved back only when fewer than 10 characters follow. Otherwise the next read fails, and decryption stops after the first block. | Any file of more than 40 bytes: it decrypts to its first 10 bytes. | Tell the last block by counting numbers, not characters: it is the block followed only by the trailer. Every earlier block is decrypted in full. | not executed | Rsa.LongFileKeepsFirstChunk | Rsa.DecodeCiphers |
| rsa_signature.cpp:74 | The digit map is c-'a'+10 above '9', but the SHA-1 text is uppercase, so 'A'..'F' give -22..-17. A digest starting with a letter becomes a negative msg, which no signature can match. | A file whose digest starts with 'A'..'F', such as "abc" (its FIPS 180-4 digest is A9993E36…). | Map 'A'..'F' to 10..15, so that msg is the digest value in [0, 16^40) and the signature verifies. | not executed | RsaSignature.DigestSignatureRejected | RsaSignature.DigestSignatureVerifies |
