/**
 * The operations of an arbitrary-precision integer that the tool relies on,
 * restricted to non-negative values: bit length and the inverse modulo a power of two.
 */
module BigInteger {
  import opened Arith
  import opened Results

  /** Bit length of a non-negative value: 0 for 0, otherwise the index of the highest set bit plus one. */
  function BitLength(n: nat): nat
  {
    if n == 0 then 0 else 1 + BitLength(n / 2)
  }

  /** A value has bit length `k` exactly when bit `k - 1` is its highest set bit. */
  lemma {:induction false} BitLengthIff(n: nat, k: nat)
    ensures BitLength(n) == k <==> (k == 0 && n == 0) || (k >= 1 && Pow2(k - 1) <= n < Pow2(k))
  {
    BitLengthBounds(n);
    if k >= 1 && Pow2(k - 1) <= n < Pow2(k) {
      BitLengthOfRange(n, k);
    }
  }

  lemma {:induction false} BitLengthBounds(n: nat)
    ensures n < Pow2(BitLength(n))
    ensures n > 0 ==> Pow2(BitLength(n) - 1) <= n
  {
    if n > 0 {
      BitLengthBounds(n / 2);
    }
  }

  lemma {:induction false} BitLengthOfRange(n: nat, k: nat)
    requires k >= 1 && Pow2(k - 1) <= n < Pow2(k)
    ensures BitLength(n) == k
  {
    if k > 1 {
      BitLengthOfRange(n / 2, k - 1);
    }
  }

  /**
   * The inverse of an odd `n` modulo 2^k, found one bit at a time: an inverse modulo
   * 2^(k-1) is either already an inverse modulo 2^k or becomes one once bit k-1 is added.
   */
  function InversePow2(n: nat, k: nat): (x: nat)
    requires n % 2 == 1 && k >= 1
    ensures x < Pow2(k) && (n * x) % Pow2(k) == 1
    decreases k
  {
    if k == 1 then 1
    else
      var y := InversePow2(n, k - 1);
      LiftInverse(n, y, k - 1);
      if (n * y) % Pow2(k) == 1 then y else y + Pow2(k - 1)
  }

  /** Hensel step: an inverse modulo 2^j lifts to an inverse modulo 2^(j+1). */
  lemma LiftInverse(n: nat, y: nat, j: nat)
    requires n % 2 == 1 && j >= 1 && y < Pow2(j) && (n * y) % Pow2(j) == 1
    ensures y + Pow2(j) < Pow2(j + 1)
    ensures (n * y) % Pow2(j + 1) == 1 || (n * (y + Pow2(j))) % Pow2(j + 1) == 1
  {
    var p := Pow2(j);
    assert Pow2(j + 1) == 2 * p;
    assert p >= 2 by {
      Pow2Monotone(1, j);
    }
    DivMod(n * y, p);
    LiftCore(n, y, p, (n * y) / p);
  }

  lemma LiftCore(n: int, y: int, p: int, t: int)
    requires n % 2 == 1 && p >= 2 && n * y == t * p + 1
    ensures (n * y) % (2 * p) == 1 || (n * (y + p)) % (2 * p) == 1
  {
    if t % 2 == 0 {
      var s := t / 2;
      HalfMultiple(n * y, t, s, p);
      DivModUnique(n * y, 2 * p, s, 1);
    } else {
      var s := (t + n) / 2;
      ShiftedProduct(n, y, p, t);
      HalfMultiple(n * (y + p), t + n, s, p);
      DivModUnique(n * (y + p), 2 * p, s, 1);
    }
  }

  lemma HalfMultiple(v: int, t: int, s: int, p: int)
    requires t == 2 * s && v == t * p + 1
    ensures v == s * (2 * p) + 1
  {
  }

  lemma ShiftedProduct(n: int, y: int, p: int, t: int)
    requires n * y == t * p + 1
    ensures n * (y + p) == (t + n) * p + 1
  {
  }

  /**
   * `n.modInverse(2^k)`: the inverse of `n` modulo 2^k, which exists exactly when `n` is odd.
   */
  function ModInversePow2(n: nat, k: nat): (r: Option<nat>)
    requires k >= 1
    ensures r.Some? <==> n % 2 == 1
    ensures r.Some? ==> r.value < Pow2(k) && (n * r.value) % Pow2(k) == 1
  {
    if n % 2 == 0 then None else Some(InversePow2(n, k))
  }

  /** An even value has no inverse modulo 2^k, so failing for it loses nothing. */
  lemma NoInverseWhenEven(n: nat, k: nat, y: nat)
    requires k >= 1 && n % 2 == 0
    ensures (n * y) % Pow2(k) != 1
  {
    var m := Pow2(k);
    assert m == 2 * Pow2(k - 1);
    var q, r := (n * y) / m, (n * y) % m;
    assert n * y == q * m + r;
    assert n * y == 2 * ((n / 2) * y);
    assert r == 2 * ((n / 2) * y - q * Pow2(k - 1));
  }

  /** The inverse modulo 2^k is unique, so the one returned is the one the library returns. */
  lemma InverseUnique(n: nat, k: nat, x: nat, y: nat)
    requires x < Pow2(k) && y < Pow2(k)
    requires (n * x) % Pow2(k) == 1 && (n * y) % Pow2(k) == 1
    ensures x == y
  {
    var m := Pow2(k);
    var a, b := (n * x) / m, (n * y) / m;
    assert n * x == a * m + 1;
    assert n * y == b * m + 1;
    assert x * (n * y) == x * b * m + x;
    assert y * (n * x) == y * a * m + y;
    assert x * (n * y) == y * (n * x);
    assert x == (y * a - x * b) * m + y;
    DivModUnique(x, m, y * a - x * b, y);
    DivModUnique(x, m, 0, x);
  }
}
