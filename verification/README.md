# dumpkey: RSA public key to C initializer

This project models the core of the `dumpkey` tool. The tool turns an RSA public key
`(e, N)` into a C initializer for a signature verifier that uses Montgomery reduction.
The model covers two operations:

- `check` is a policy gate. The public exponent must be 3, and it is examined first. The modulus
  must be exactly 2048 bits long, i.e. `2^2047 <= N < 2^2048`.
- `print` checks the key and derives the Montgomery parameters. It then writes
  `{3,nwords,0x<n0inv>,rr_0,n_0,rr_1,n_1,...}`, where:
  - `nwords = bitLength(N) / 32`;
  - `n0inv = 2^32 - N^-1 mod 2^32`;
  - `rr_i` and `n_i` are the little-endian 32-bit words of `RR = (2^bitLength(N))^2 mod N`
    and of `N`.

The Dafny modules follow the pieces of that computation:

| module | contents |
|---|---|
| `Results` | `Option` and `Result` |
| `Arith` | powers of two and division/remainder facts |
| `BigInteger` | the `BigInteger` operations `bitLength` and `modInverse` modulo `2^k`, the latter computed by Hensel lifting one bit at a time |
| `Radix` | `toString(radix)` for radix 10 and 16, with its reading back |
| `Words` | little-endian 32-bit words of a number, interleaving of two word lists |
| `InitializerText` | the text `{3,...}`, comma joining and splitting, and a reader for it |
| `DumpPublicKey` | `Check`, the Montgomery constant, `RR`, the specification function `Encode`, and the imperative `Print` method with its word loop |

Properties by area:

- `Print` mirrors the source's `StringBuilder` appends and its `for` loop over `RR` and
  `N`. It is proved to return exactly `Encode(key)`.
- `Encode` is characterised by `EncodeOutcome`, which lists which error wins.
- `EncodeRoundTrip` shows the text reads back as exponent 3, 64 words and the
  Montgomery constant. The 128 words it reads back are all below `2^32` and rebuild
  `N` and `2^4096 mod N` exactly.
- Every piece of text has a reader proved to be its inverse. This holds for numbers
  in radix 10 and 16, for comma-joined lists, and for the whole initializer.

Key decoding, file reading and printing to standard output are not modelled. The key
enters as two natural numbers.

The constant is computed as `2^32` minus the inverse, with no further reduction
modulo `2^32`. For an odd `N` the inverse is at least 1, so the constant always lies in
`[1, 2^32 - 1]`. `MontgomeryInverse` states that range.

## Model

| member | source | states |
|---|---|---|
| `DumpPublicKey.Check` | src/com/android/dumpkey/DumpPublicKey.java:43-54 | fails with BadExponent exactly when e != 3; fails with BadModulusSize exactly when e = 3 and not 2^2047 <= N < 2^2048; passes exactly when e = 3 and 2^2047 <= N < 2^2048 (so a key wrong on both counts fails on the exponent) |
| `DumpPublicKey.ModulusSizeIff` | src/com/android/dumpkey/DumpPublicKey.java:51 | bitLength(N) = 2048 if and only if 2^2047 <= N < 2^2048 |
| `BigInteger.BitLengthIff` | src/com/android/dumpkey/DumpPublicKey.java:51 | bitLength(n) = k if and only if n = k = 0, or k >= 1 and 2^(k-1) <= n < 2^k (highest set bit plus one) |
| `DumpPublicKey.AcceptedWordCount` | src/com/android/dumpkey/DumpPublicKey.java:68 | for a key that passes the check, N > 0 and nwords = bitLength(N)/32 = 64 |
| `DumpPublicKey.MontgomeryInverse` | src/com/android/dumpkey/DumpPublicKey.java:73-74 | the constant exists exactly when N is odd; it lies in [1, 2^32 - 1] and N * n0inv = -1 (mod 2^32) |
| `DumpPublicKey.MontgomeryInverseUnique` | src/com/android/dumpkey/DumpPublicKey.java:73-74 | any word m < 2^32 with N * m = -1 (mod 2^32) is the constant, so the constant is determined by that identity alone |
| `BigInteger.ModInversePow2` | src/com/android/dumpkey/DumpPublicKey.java:74 | `N.modInverse(2^k)` succeeds exactly when N is odd, and then returns x < 2^k with N * x = 1 (mod 2^k) |
| `BigInteger.InversePow2` | src/com/android/dumpkey/DumpPublicKey.java:74 | for odd n, the bit-by-bit lifted value is below 2^k and is an inverse of n modulo 2^k |
| `BigInteger.NoInverseWhenEven` | src/com/android/dumpkey/DumpPublicKey.java:74 | for even n no y has n * y = 1 (mod 2^k), so the failure for even N loses no answer |
| `BigInteger.InverseUnique` | src/com/android/dumpkey/DumpPublicKey.java:74 | two inverses of n below 2^k are equal, so the one computed is the library's |
| `DumpPublicKey.RSquared` | src/com/android/dumpkey/DumpPublicKey.java:79-80 | RR = 2^(2 * bitLength(N)) mod N, hence 0 <= RR < N |
| `DumpPublicKey.EncodeOutcome` | src/com/android/dumpkey/DumpPublicKey.java:61-74 | printing gives BadExponent, BadModulusSize or NoInverse (even N) exactly under their conditions, in that order of precedence, and text exactly when e = 3, N has 2048 bits and N is odd |
| `DumpPublicKey.Print` | src/com/android/dumpkey/DumpPublicKey.java:61-103 | the imperative printer (check first, then the appends and the loop) returns exactly the error or the text that `Encode` specifies |
| `DumpPublicKey.WriteWords` | src/com/android/dumpkey/DumpPublicKey.java:83-99 | the loop that divides RR and N by 2^32 each pass writes the comma-joined decimals of rr_0, n_0, ..., rr_(nwords-1), n_(nwords-1) with no trailing comma; its invariant keeps RR and N equal to the originals divided by 2^(32i) |
| `DumpPublicKey.LoopStep` | src/com/android/dumpkey/DumpPublicKey.java:85-98 | one pass writes the low words of the current RR and N and leaves the words of RR/2^32 and N/2^32 still to be written |
| `DumpPublicKey.EmittedValueAt` | src/com/android/dumpkey/DumpPublicKey.java:83-99 | for an accepted key exactly 128 values are written; value 2i is floor(RR / 2^(32i)) mod 2^32 and value 2i+1 is floor(N / 2^(32i)) mod 2^32 |
| `DumpPublicKey.EncodeRoundTrip` | src/com/android/dumpkey/DumpPublicKey.java:70-101 | the printed text reads back as exponent 3, nwords 64, the Montgomery constant and 128 words, each below 2^32, whose odd positions rebuild N and whose even positions rebuild 2^4096 mod N |
| `Words.LimbAt` | src/com/android/dumpkey/DumpPublicKey.java:85-98 | word i of x is floor(x / 2^(32i)) mod 2^32 |
| `Words.LimbsBelow` | src/com/android/dumpkey/DumpPublicKey.java:85-90 | every word taken with `mod(B)` is below 2^32 |
| `Words.ShiftWord` | src/com/android/dumpkey/DumpPublicKey.java:97-98 | dividing by 2^32 once more after 2^(32i) is dividing by 2^(32(i+1)) |
| `Words.ValueOfLimbs` | src/com/android/dumpkey/DumpPublicKey.java:83-99 | a value below 2^(32k) is rebuilt exactly from its k little-endian words |
| `Words.LimbsOfValue` | src/com/android/dumpkey/DumpPublicKey.java:83-99 | the value of k words is below 2^(32k) and splits back into the same words |
| `Words.InterleaveAt` | src/com/android/dumpkey/DumpPublicKey.java:83-99 | in the interleaved list, position 2i holds a[i] and position 2i+1 holds b[i] |
| `Words.Deinterleave` | src/com/android/dumpkey/DumpPublicKey.java:83-99 | the even and odd positions of the interleaved list give back the two word lists |
| `Radix.ToRadix` | src/com/android/dumpkey/DumpPublicKey.java:77 | `toString(radix)` is nonempty, starts with '0' exactly for zero, and writes zero as "0" |
| `Radix.ToRadixCanonical` | src/com/android/dumpkey/DumpPublicKey.java:77 | the text uses only digits of the radix (lower-case a-f in hexadecimal) and has no leading zero |
| `Radix.ParseRadixIff` | src/com/android/dumpkey/DumpPublicKey.java:71-91 | reading digits gives x exactly when the text is the one written for x |
| `Radix.FromToRadix` | src/com/android/dumpkey/DumpPublicKey.java:71-91 | reading what is written for x gives x |
| `Radix.ToFromRadix` | src/com/android/dumpkey/DumpPublicKey.java:71-91 | writing the value of canonical text gives that text back |
| `InitializerText.JoinSnoc` | src/com/android/dumpkey/DumpPublicKey.java:88-95 | appending one more number adds one comma and that number, never a trailing comma |
| `InitializerText.SplitJoin` | src/com/android/dumpkey/DumpPublicKey.java:82-95 | splitting the comma-joined texts without commas gives the texts back |
| `InitializerText.JoinSplit` | src/com/android/dumpkey/DumpPublicKey.java:82-95 | joining the pieces of a text split at its commas gives the text back |
| `InitializerText.ParseNumbersIff` | src/com/android/dumpkey/DumpPublicKey.java:86-91 | a list of fields reads as these numbers exactly when it is their decimal texts |
| `InitializerText.LiteralFields` | src/com/android/dumpkey/DumpPublicKey.java:70-101 | the initializer is "{", the fields 3, nwords, 0x<hex> and the values joined by commas, then "}" |
| `InitializerText.ParseLiteralIff` | src/com/android/dumpkey/DumpPublicKey.java:70-101 | a text reads back as (3, nwords, n0inv, values) exactly when it is the text written for them |
| `InitializerText.LiteralParses` | src/com/android/dumpkey/DumpPublicKey.java:70-101 | reading the written text gives back exponent 3, nwords, n0inv and the values |
| `InitializerText.ParsedIsLiteral` | src/com/android/dumpkey/DumpPublicKey.java:70-101 | only the written text reads back as those fields |

## Left out

- `main` is not modelled: argument handling, standard output, the comma between the
  initializers of successive keys and `System.exit` are input/output orchestration. Its
  second call to `check` before `print` changes nothing, since `print` checks again.
- `loadBinaryFile` is not modelled: it is file input/output.
- Key decoding through `KeyFactory` and `X509EncodedKeySpec` is not modelled, because
  it is a foreign library call. The exponent and modulus enter as natural numbers, so
  negative `BigInteger` values are not represented.
- The unused `BASE64Encoder` import has no behaviour to model.
- The texts of the exceptions are not modelled. The three failures are the tags
  `BadExponent`, `BadModulusSize` and `NoInverse`. The last one stands for the
  `ArithmeticException` that `modInverse` throws for an even modulus.
- `Print` stops with `NoInverse` after writing part of the header. That partial text
  is discarded, just as the source discards its `StringBuilder` when the exception
  propagates.
- Java `int` and `long` widths are not modelled separately. Every value they hold is
  either `nwords = 64` or a word below `2^32`, so none of them wraps around.
- The `StringBuilder` is modelled as a string the method reassigns, not as a shared
  mutable object.
