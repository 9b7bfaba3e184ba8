/**
 * Positional text for non-negative integers, as the tool writes them:
 * `toString(16)` for the Montgomery constant and decimal `append` for every other number.
 * Digits above nine are lower-case letters and there are no leading zeros.
 */
module Radix {
  import opened Arith
  import opened Results

  /** The character for digit `d`: '0'..'9', then 'a'..'f'. */
  function DigitChar(d: nat): char
    requires d < 16
  {
    if d < 10 then (48 + d) as char else (87 + d) as char
  }

  /** The value of a digit character, if it is one. */
  function DigitValue(c: char): Option<nat>
  {
    if '0' <= c <= '9' then Some(c as nat - 48)
    else if 'a' <= c <= 'f' then Some(c as nat - 87)
    else None
  }

  predicate IsDigit(c: char, radix: nat)
  {
    DigitValue(c).Some? && DigitValue(c).value < radix
  }

  /** The text `toString` produces: digits only, and a leading '0' only in "0" itself. */
  predicate Canonical(s: string, radix: nat)
  {
    |s| >= 1 &&
    (forall i :: 0 <= i < |s| ==> IsDigit(s[i], radix)) &&
    (s[0] == '0' ==> |s| == 1)
  }

  lemma DigitRoundTrip(d: nat, c: char)
    requires d < 16
    ensures DigitValue(c) == Some(d) <==> c == DigitChar(d)
  {
  }

  lemma DigitCharIsDigit(d: nat, radix: nat)
    requires d < radix <= 16
    ensures IsDigit(DigitChar(d), radix)
    ensures DigitChar(d) == '0' <==> d == 0
  {
    DigitRoundTrip(d, DigitChar(d));
  }

  lemma CanonicalSnoc(s: string, c: char, radix: nat)
    requires Canonical(s, radix) && s != "0" && IsDigit(c, radix)
    ensures Canonical(s + [c], radix)
  {
    var t := s + [c];
    forall i | 0 <= i < |t|
      ensures IsDigit(t[i], radix)
    {
      if i < |s| {
        assert t[i] == s[i];
      }
    }
  }

  /** `x.toString(radix)` for a non-negative `x`: no leading zero, and "0" for zero. */
  function ToRadix(x: nat, radix: nat): (s: string)
    requires 2 <= radix <= 16
    ensures |s| >= 1
    ensures s[0] == '0' <==> x == 0
    ensures x == 0 ==> s == "0"
  {
    if x < radix then
      DigitCharIsDigit(x, radix);
      [DigitChar(x)]
    else
      ToRadix(x / radix, radix) + [DigitChar(x % radix)]
  }

  /** What `toString` writes is canonical text in that radix. */
  lemma {:induction false} ToRadixCanonical(x: nat, radix: nat)
    requires 2 <= radix <= 16
    ensures Canonical(ToRadix(x, radix), radix)
    decreases x
  {
    if x < radix {
      DigitCharIsDigit(x, radix);
    } else {
      DivModIdentity(x, radix);
      ToRadixCanonical(x / radix, radix);
      DigitCharIsDigit(x % radix, radix);
      CanonicalSnoc(ToRadix(x / radix, radix), DigitChar(x % radix), radix);
    }
  }

  /** Decimal text, as `StringBuilder.append` writes an `int` or a non-negative `long`. */
  function Dec(x: nat): string
  {
    ToRadix(x, 10)
  }

  /** Lower-case hexadecimal text without prefix, as `toString(16)` writes it. */
  function Hex(x: nat): string
  {
    ToRadix(x, 16)
  }

  /** The value a string of digits denotes, most significant digit first. */
  function FromRadix(s: string, radix: nat): nat
    requires forall i :: 0 <= i < |s| ==> IsDigit(s[i], radix)
  {
    if s == [] then 0
    else
      var init, last := s[..|s| - 1], s[|s| - 1];
      assert IsDigit(last, radix);
      assert forall i :: 0 <= i < |init| ==> init[i] == s[i];
      var v := FromRadix(init, radix);
      MulNonNegative(v, radix);
      v * radix + DigitValue(last).value
  }

  /** Reading a number back: only canonical text is accepted. */
  function ParseRadix(s: string, radix: nat): Option<nat>
  {
    if Canonical(s, radix) then Some(FromRadix(s, radix)) else None
  }

  /** Reading back inverts writing, and canonical text is exactly what writing produces. */
  lemma ParseRadixIff(s: string, x: nat, radix: nat)
    requires 2 <= radix <= 16
    ensures ParseRadix(s, radix) == Some(x) <==> s == ToRadix(x, radix)
  {
    FromToRadix(x, radix);
    if Canonical(s, radix) {
      ToFromRadix(s, radix);
    }
  }

  lemma {:induction false} FromToRadix(x: nat, radix: nat)
    requires 2 <= radix <= 16
    ensures Canonical(ToRadix(x, radix), radix)
    ensures FromRadix(ToRadix(x, radix), radix) == x
    decreases x
  {
    ToRadixCanonical(x, radix);
    if x >= radix {
      DivModIdentity(x, radix);
      var init, c := ToRadix(x / radix, radix), DigitChar(x % radix);
      assert ToRadix(x, radix) == init + [c];
      FromToRadix(x / radix, radix);
      DigitRoundTrip(x % radix, c);
      FromRadixSnoc(init, c, radix);
      var q, r := x / radix, x % radix;
      assert FromRadix(init, radix) == q;
      assert DigitValue(c).value == r;
      assert x == q * radix + r;
    } else {
      DigitRoundTrip(x, DigitChar(x));
      FromRadixSnoc([], DigitChar(x), radix);
      assert [] + [DigitChar(x)] == [DigitChar(x)];
    }
  }

  lemma FromRadixSnoc(init: string, c: char, radix: nat)
    requires forall i :: 0 <= i < |init| ==> IsDigit(init[i], radix)
    requires IsDigit(c, radix)
    ensures forall i :: 0 <= i < |init + [c]| ==> IsDigit((init + [c])[i], radix)
    ensures FromRadix(init + [c], radix) == FromRadix(init, radix) * radix + DigitValue(c).value
  {
    assert (init + [c])[..|init|] == init;
  }

  lemma {:induction false} ToFromRadix(s: string, radix: nat)
    requires 2 <= radix <= 16 && Canonical(s, radix)
    ensures ToRadix(FromRadix(s, radix), radix) == s
    decreases |s|
  {
    var init, last := s[..|s| - 1], s[|s| - 1];
    assert s == init + [last];
    assert IsDigit(last, radix);
    var d := DigitValue(last).value;
    DigitRoundTrip(d, last);
    FromRadixSnoc(init, last, radix);
    if |s| == 1 {
      assert init == [];
    } else {
      assert init[0] == s[0];
      assert Canonical(init, radix);
      ToFromRadix(init, radix);
      var v := FromRadix(init, radix);
      FromRadixPositive(init, radix);
      var x := v * radix + d;
      assert x >= radix by {
        MulAtLeast(v, radix);
      }
      DivModUnique(x, radix, v, d);
    }
  }

  lemma {:induction false} FromRadixPositive(s: string, radix: nat)
    requires 2 <= radix <= 16 && Canonical(s, radix) && s[0] != '0'
    ensures FromRadix(s, radix) >= 1
    decreases |s|
  {
    if |s| > 1 {
      var init := s[..|s| - 1];
      assert init[0] == s[0];
      FromRadixPositive(init, radix);
      MulAtLeast(FromRadix(init, radix), radix);
    } else {
      assert s[..0] == [];
    }
  }

  /** No digit is a comma, so numbers in a comma-separated list stay separable. */
  lemma CanonicalHasNoComma(s: string, radix: nat)
    requires Canonical(s, radix)
    ensures ',' !in s
  {
    forall i | 0 <= i < |s|
      ensures s[i] != ','
    {
      assert IsDigit(s[i], radix);
    }
  }
}
