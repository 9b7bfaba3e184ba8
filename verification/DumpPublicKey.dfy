/**
 * The key check and the initializer printer of the dumpkey tool: an RSA public key
 * `(e, N)` with e = 3 and a 2048-bit modulus becomes the C initializer
 * `{3,nwords,0x<n0inv>,rr_0,n_0,rr_1,n_1,...}` that a Montgomery-reduction verifier loads.
 */
module DumpPublicKey {
  import opened Arith
  import opened Results
  import opened BigInteger
  import opened Radix
  import opened Words
  import opened InitializerText

  /** The two numbers of an RSA public key; decoding them from a certificate happens elsewhere. */
  datatype PublicKey = PublicKey(exponent: nat, modulus: nat)

  /** Why no initializer was produced. */
  datatype Error =
    | BadExponent     // the public exponent is not 3
    | BadModulusSize  // the modulus is not exactly 2048 bits long
    | NoInverse       // the modulus has no inverse modulo 2^32 (it is even)

  /** The only public exponent the verifier supports. */
  const RequiredExponent: nat := 3

  /** The only modulus length, in bits, the verifier supports. */
  const ModulusBits: nat := 2048

  /**
   * The policy gate: the exponent must be 3 and the modulus exactly 2048 bits long,
   * i.e. 2^2047 <= N < 2^2048. The exponent is examined first.
   */
  function Check(key: PublicKey): (r: Result<(), Error>)
    ensures r == Err(BadExponent) <==> key.exponent != RequiredExponent
    ensures r == Err(BadModulusSize) <==> key.exponent == RequiredExponent && !(Pow2(ModulusBits - 1) <= key.modulus < Pow2(ModulusBits))
    ensures r == Ok(()) <==> key.exponent == RequiredExponent && Pow2(ModulusBits - 1) <= key.modulus < Pow2(ModulusBits)
  {
    ModulusSizeIff(key.modulus);
    if key.exponent != RequiredExponent then Err(BadExponent)
    else if BitLength(key.modulus) != ModulusBits then Err(BadModulusSize)
    else Ok(())
  }

  /** A modulus is 2048 bits long exactly when bit 2047 is its highest set bit. */
  lemma ModulusSizeIff(n: nat)
    ensures BitLength(n) == ModulusBits <==> Pow2(ModulusBits - 1) <= n < Pow2(ModulusBits)
  {
    BitLengthIff(n, ModulusBits);
  }

  /** Number of 32-bit words in the modulus, rounded down. */
  function WordCount(n: nat): nat
  {
    BitLength(n) / 32
  }

  /** A key that passes the check has a positive modulus of exactly 64 words. */
  lemma AcceptedWordCount(key: PublicKey)
    requires Check(key).Ok?
    ensures key.modulus > 0
    ensures WordCount(key.modulus) == 64
  {
    BitLengthIff(key.modulus, ModulusBits);
  }

  /**
   * The Montgomery constant `2^32 - N^-1 mod 2^32`: a word in [1, 2^32 - 1] with
   * N * n0inv = -1 (mod 2^32). It exists exactly when N is odd.
   */
  function MontgomeryInverse(n: nat): (r: Option<nat>)
    ensures r.Some? <==> n % 2 == 1
    ensures r.Some? ==> 1 <= r.value < WordBase && (n * r.value) % WordBase == WordBase - 1
  {
    Pow2Word();
    match ModInversePow2(n, 32)
    case None => None
    case Some(x) =>
      NegatedInverse(n, x);
      Some(WordBase - x)
  }

  lemma NegatedInverse(n: nat, x: nat)
    requires x < WordBase && (n * x) % WordBase == 1
    ensures 1 <= WordBase - x < WordBase
    ensures (n * (WordBase - x)) % WordBase == WordBase - 1
  {
    assert (n * 0) % WordBase == 0;
    var t := (n * x) / WordBase;
    Negate(n, x, t, 1);
    DivModUnique(n * (WordBase - x), WordBase, n - t - 1, WordBase - 1);
  }

  /** The converse: negating a word with N * m = -1 (mod 2^32) gives the inverse of N. */
  lemma NegatedMontgomery(n: nat, m: nat)
    requires m < WordBase && (n * m) % WordBase == WordBase - 1
    ensures 1 <= WordBase - m < WordBase
    ensures (n * (WordBase - m)) % WordBase == 1
  {
    assert (n * 0) % WordBase == 0;
    var t := (n * m) / WordBase;
    Negate(n, m, t, WordBase - 1);
    DivModUnique(n * (WordBase - m), WordBase, n - t - 1, 1);
  }

  /** If n * x = t * 2^32 + c then n * (2^32 - x) = (n - t - 1) * 2^32 + (2^32 - c). */
  lemma Negate(n: int, x: int, t: int, c: int)
    requires n * x == t * WordBase + c
    ensures n * (WordBase - x) == (n - t - 1) * WordBase + (WordBase - c)
  {
  }

  /** The Montgomery constant is the only word with N * n0inv = -1 (mod 2^32). */
  lemma MontgomeryInverseUnique(n: nat, m: nat)
    requires n % 2 == 1 && m < WordBase && (n * m) % WordBase == WordBase - 1
    ensures MontgomeryInverse(n) == Some(m)
  {
    Pow2Word();
    var v := MontgomeryInverse(n).value;
    NegatedMontgomery(n, v);
    NegatedMontgomery(n, m);
    InverseUnique(n, 32, WordBase - v, WordBase - m);
  }

  /** `R^2 mod N` with `R = 2^bitLength(N)`: the value that takes operands into Montgomery form. */
  function RSquared(n: nat): (rr: nat)
    requires n > 0
    ensures rr < n
    ensures rr == Pow2(2 * BitLength(n)) % n
  {
    var r := Pow2(BitLength(n));
    Pow2Add(BitLength(n), BitLength(n));
    (r * r) % n
  }

  /** The word values in the order they are written: rr_0, n_0, rr_1, n_1, ... */
  function EmittedValues(n: nat): seq<nat>
    requires n > 0
  {
    Interleave(Limbs(RSquared(n), WordCount(n)), Limbs(n, WordCount(n)))
  }

  /** What printing a key yields: the initializer text, or the first error met. */
  function Encode(key: PublicKey): Result<string, Error>
  {
    match Check(key)
    case Err(e) => Err(e)
    case Ok(_) =>
      match MontgomeryInverse(key.modulus)
      case None => Err(NoInverse)
      case Some(n0inv) =>
        Ok(Literal(WordCount(key.modulus), n0inv, EmittedValues(key.modulus)))
  }

  /**
   * Every outcome of printing: the exponent is checked before the size, the size
   * before the inverse, and text is produced only when all three hold.
   */
  lemma EncodeOutcome(key: PublicKey)
    ensures Encode(key) == Err(BadExponent) <==> key.exponent != RequiredExponent
    ensures Encode(key) == Err(BadModulusSize) <==>
      key.exponent == RequiredExponent && !(Pow2(ModulusBits - 1) <= key.modulus < Pow2(ModulusBits))
    ensures Encode(key) == Err(NoInverse) <==>
      key.exponent == RequiredExponent && Pow2(ModulusBits - 1) <= key.modulus < Pow2(ModulusBits) && key.modulus % 2 == 0
    ensures Encode(key).Ok? <==>
      key.exponent == RequiredExponent && Pow2(ModulusBits - 1) <= key.modulus < Pow2(ModulusBits) && key.modulus % 2 == 1
  {
  }

  /** Value 2i is word i of R^2 mod N and value 2i+1 is word i of N. */
  lemma EmittedValueAt(key: PublicKey, i: nat)
    requires Check(key).Ok? && i < 64
    ensures |EmittedValues(key.modulus)| == 128
    ensures EmittedValues(key.modulus)[2 * i] == RSquared(key.modulus) / Pow2(32 * i) % WordBase
    ensures EmittedValues(key.modulus)[2 * i + 1] == key.modulus / Pow2(32 * i) % WordBase
  {
    AcceptedWordCount(key);
    InterleaveAt(Limbs(RSquared(key.modulus), 64), Limbs(key.modulus, 64), i);
    LimbAt(RSquared(key.modulus), 64, i);
    LimbAt(key.modulus, 64, i);
  }

  /**
   * For an accepted key the text reads back as exponent 3, 64 words, the Montgomery
   * constant, and 128 words from which N and R^2 mod N are rebuilt exactly.
   */
  lemma EncodeRoundTrip(key: PublicKey, s: string)
    requires Encode(key) == Ok(s)
    ensures ParseLiteral(s).Some?
    ensures ParseLiteral(s).value.exponent == 3
    ensures ParseLiteral(s).value.nwords == 64
    ensures MontgomeryInverse(key.modulus) == Some(ParseLiteral(s).value.n0inv)
    ensures |ParseLiteral(s).value.vals| == 128
    ensures forall i :: 0 <= i < 128 ==> ParseLiteral(s).value.vals[i] < WordBase
    ensures Value(Odds(ParseLiteral(s).value.vals)) == key.modulus
    ensures Value(Evens(ParseLiteral(s).value.vals)) == Pow2(2 * ModulusBits) % key.modulus
  {
    var n := key.modulus;
    AcceptedWordCount(key);
    BitLengthIff(n, ModulusBits);
    assert n < Pow2(32 * 64);
    var n0inv := MontgomeryInverse(n).value;
    var rr, vals := RSquared(n), EmittedValues(n);
    ParseLiteralIff(s, 64, n0inv, vals);
    Deinterleave(Limbs(rr, 64), Limbs(n, 64));
    LimbsBelow(rr, 64);
    LimbsBelow(n, 64);
    InterleaveBelow(Limbs(rr, 64), Limbs(n, 64), WordBase);
    ValueOfLimbs(n, 64);
    ValueOfLimbs(rr, 64);
  }

  /**
   * The printer as the tool runs it: check the key, append the header, the constant
   * and then, word by word, the low word of RR and of N before dividing both by 2^32.
   */
  method Print(key: PublicKey) returns (r: Result<string, Error>)
    ensures r == Encode(key)
  {
    var checked := Check(key);
    if checked.Err? {
      return Err(checked.error);
    }
    var n: nat := key.modulus;
    AcceptedWordCount(key);
    var result := "";
    assert result + "{3," == "{3,";
    var nwords := BitLength(n) / 32;
    result := result + "{3,";
    result := result + Dec(nwords);
    var inverse := MontgomeryInverse(n);
    if inverse.None? {
      return Err(NoInverse);
    }
    var n0inv := inverse.value;
    result := result + ",0x";
    result := result + Hex(n0inv);
    var radix := Pow2(BitLength(n));
    var rr: nat := (radix * radix) % n;
    result := result + ",";
    assert rr == RSquared(n) by {
      SquareIsRSquared(n, radix);
    }
    var words := WriteWords(rr, n, nwords);
    assert words == Join(Decimals(EmittedValues(n)));
    result := result + words;
    result := result + "}";
    return Ok(result);
  }

  /**
   * Print's loop: for each of the `nwords` words, the low word of `rr` and of `n`
   * in decimal, comma-separated, with both numbers shifted down by one word after
   * each pass.
   */
  method WriteWords(squared: nat, modulus: nat, nwords: nat) returns (text: string)
    ensures text == Join(Decimals(Interleave(Limbs(squared, nwords), Limbs(modulus, nwords))))
  {
    ghost var vals := Interleave(Limbs(squared, nwords), Limbs(modulus, nwords));
    var rr: nat, n: nat := squared, modulus;
    text := "";
    LoopEntry(vals, nwords, rr, n);
    var i := 0;
    while i < nwords
      invariant i <= nwords
      invariant rr == squared / Pow2(32 * i) && n == modulus / Pow2(32 * i)
      invariant Emitting(vals, nwords, i, rr, n, text)
    {
      ghost var before := text;
      var lowRR := rr % WordBase;
      text := text + Dec(lowRR);
      text := text + ",";
      var lowN := n % WordBase;
      text := text + Dec(lowN);
      if i != nwords - 1 {
        text := text + ",";
      }
      LoopStep(vals, nwords, i, rr, n, before, text);
      ShiftWord(squared, i);
      ShiftWord(modulus, i);
      rr := rr / WordBase;
      n := n / WordBase;
      i := i + 1;
    }
    assert vals[..2 * i] == vals;
  }

  /**
   * The loop invariant of Print after `i` passes: the first `2i` values are written,
   * and the words still to come are those of the remaining `rr` and `n`.
   */
  ghost predicate Emitting(vals: seq<nat>, nwords: nat, i: nat, rr: nat, n: nat, text: string)
  {
    i <= nwords && |vals| == 2 * nwords &&
    vals == vals[..2 * i] + Interleave(Limbs(rr, nwords - i), Limbs(n, nwords - i)) &&
    text == Join(Decimals(vals[..2 * i])) + (if 0 < i < nwords then "," else "")
  }

  lemma SquareIsRSquared(n: nat, radix: nat)
    requires n > 0 && radix == Pow2(BitLength(n))
    ensures (radix * radix) % n == RSquared(n)
  {
  }

  /** Before the loop nothing is written and all words are still to come. */
  lemma LoopEntry(vals: seq<nat>, nwords: nat, rr: nat, n: nat)
    requires vals == Interleave(Limbs(rr, nwords), Limbs(n, nwords))
    ensures Emitting(vals, nwords, 0, rr, n, "")
  {
    assert vals[..0] == [];
  }

  /** One pass of Print's loop keeps its invariant. */
  lemma LoopStep(vals: seq<nat>, nwords: nat, i: nat, rr: nat, n: nat,
                 before: string, after: string)
    requires i < nwords && Emitting(vals, nwords, i, rr, n, before)
    requires after == before + Dec(rr % WordBase) + "," + Dec(n % WordBase) + (if i != nwords - 1 then "," else "")
    ensures Emitting(vals, nwords, i + 1, rr / WordBase, n / WordBase, after)
  {
    var lowRR, lowN := rr % WordBase, n % WordBase;
    var rest := Interleave(Limbs(rr / WordBase, nwords - i - 1), Limbs(n / WordBase, nwords - i - 1));
    assert Interleave(Limbs(rr, nwords - i), Limbs(n, nwords - i)) == [lowRR, lowN] + rest;
    PrefixStep(vals, 2 * i, lowRR, lowN, rest);
    TextStep(vals[..2 * i], lowRR, lowN, 0 < i, i != nwords - 1, before, after);
  }

  lemma PrefixStep(vals: seq<nat>, k: nat, a: nat, b: nat, rest: seq<nat>)
    requires k <= |vals| && vals == vals[..k] + ([a, b] + rest)
    ensures k + 2 <= |vals|
    ensures vals[..k + 2] == vals[..k] + [a, b]
    ensures vals == vals[..k + 2] + rest
  {
    var done := vals[..k];
    assert vals[..k + 2] == done + [a, b];
    assert vals == (done + [a, b]) + rest;
  }

  /** One pass of the loop extends the text by the next two numbers. */
  lemma TextStep(done: seq<nat>, a: nat, b: nat, sepBefore: bool, sepAfter: bool,
                 before: string, after: string)
    requires sepBefore == (done != [])
    requires before == Join(Decimals(done)) + (if sepBefore then "," else "")
    requires after == before + Dec(a) + "," + Dec(b) + (if sepAfter then "," else "")
    ensures after == Join(Decimals(done + [a, b])) + (if sepAfter then "," else "")
  {
    AppendPair(done, a, b);
    ConcatStep(Join(Decimals(done)), Join(Decimals(done + [a, b])), Dec(a), Dec(b),
               if sepBefore then "," else "", if sepAfter then "," else "", before, after);
  }

  lemma ConcatStep(joined: string, extended: string, da: string, db: string,
                   sepBefore: string, sepAfter: string, before: string, after: string)
    requires sepBefore == "" ==> joined == ""
    requires extended == (if sepBefore == "" then "" else joined + ",") + da + "," + db
    requires sepBefore == "" || sepBefore == ","
    requires before == joined + sepBefore
    requires after == before + da + "," + db + sepAfter
    ensures after == extended + sepAfter
  {
    if sepBefore == "" {
      assert before == "";
    }
  }

  /** Extending the written list by one pair of words extends its text by those two numbers. */
  lemma AppendPair(done: seq<nat>, a: nat, b: nat)
    ensures Join(Decimals(done + [a, b])) ==
      (if done == [] then "" else Join(Decimals(done)) + ",") + Dec(a) + "," + Dec(b)
  {
    var ds := Decimals(done + [a, b]);
    DecimalsAppend(done, [a, b]);
    assert Decimals([a, b]) == [Dec(a), Dec(b)];
    if done == [] {
      assert ds == [Dec(a), Dec(b)];
    } else {
      assert ds == Decimals(done) + [Dec(a)] + [Dec(b)];
      JoinSnoc(Decimals(done) + [Dec(a)], Dec(b));
      JoinSnoc(Decimals(done), Dec(a));
    }
  }
}
