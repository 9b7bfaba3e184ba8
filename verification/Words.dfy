/**
 * Little-endian 32-bit words of a non-negative integer, and the word-by-word
 * interleaving of two such arrays that the emitted initializer uses.
 */
module Words {
  import opened Arith

  /** The low `k` words of `x`, least significant first: repeatedly take `x mod 2^32`, then divide by 2^32. */
  function Limbs(x: nat, k: nat): (ls: seq<nat>)
    ensures |ls| == k
  {
    if k == 0 then [] else [x % WordBase] + Limbs(x / WordBase, k - 1)
  }

  /** Every limb is a 32-bit word. */
  lemma LimbsBelow(x: nat, k: nat)
    ensures forall i :: 0 <= i < k ==> Limbs(x, k)[i] < WordBase
  {
    forall i | 0 <= i < k
      ensures Limbs(x, k)[i] < WordBase
    {
      LimbAt(x, k, i);
    }
  }

  /** Word `i` is bits 32i .. 32i+31 of `x`, i.e. `floor(x / 2^(32i)) mod 2^32`. */
  lemma {:induction false} LimbAt(x: nat, k: nat, i: nat)
    requires i < k
    ensures Limbs(x, k)[i] == x / Pow2(32 * i) % WordBase
  {
    if i > 0 {
      var p := Pow2(32 * (i - 1));
      assert Limbs(x, k)[i] == Limbs(x / WordBase, k - 1)[i - 1];
      LimbAt(x / WordBase, k - 1, i - 1);
      DivDiv(x, WordBase, p);
      Pow2NextWord(i - 1);
      assert 32 * (i - 1) + 32 == 32 * i;
    }
  }

  /** Dropping one more word: `floor(floor(x / 2^(32i)) / 2^32) = floor(x / 2^(32(i+1)))`. */
  lemma ShiftWord(x: nat, i: nat)
    ensures x / Pow2(32 * i) / WordBase == x / Pow2(32 * (i + 1))
  {
    DivDiv(x, Pow2(32 * i), WordBase);
    Pow2NextWord(i);
    assert Pow2(32 * i) * WordBase == WordBase * Pow2(32 * i);
  }

  /** The number that little-endian words denote: `sum ls[i] * 2^(32i)`. */
  function Value(ls: seq<nat>): nat
  {
    if ls == [] then 0 else ls[0] + WordBase * Value(ls[1..])
  }

  /** Words taken from a value that fits in `k` words give that value back. */
  lemma {:induction false} ValueOfLimbs(x: nat, k: nat)
    requires x < Pow2(32 * k)
    ensures Value(Limbs(x, k)) == x
  {
    if k > 0 {
      Pow2NextWord(k - 1);
      var q, r := x / WordBase, x % WordBase;
      assert x == q * WordBase + r;
      QuotientBelow(x, q, r, Pow2(32 * (k - 1)));
      ValueOfLimbs(q, k - 1);
    }
  }

  lemma QuotientBelow(x: nat, q: nat, r: nat, p: nat)
    requires x == q * WordBase + r && r < WordBase && x < WordBase * p
    ensures q < p
  {
    MulMonotone(p, q, WordBase);
  }

  /** Words are determined by the value they denote: every sequence of words is the limbs of its value. */
  lemma {:induction false} LimbsOfValue(ls: seq<nat>)
    requires forall i :: 0 <= i < |ls| ==> ls[i] < WordBase
    ensures Value(ls) < Pow2(32 * |ls|)
    ensures Limbs(Value(ls), |ls|) == ls
  {
    if ls != [] {
      var rest := ls[1..];
      LimbsOfValue(rest);
      Pow2NextWord(|rest|);
      var v := Value(ls);
      DivModUnique(v, WordBase, Value(rest), ls[0]);
      assert v < WordBase * Pow2(32 * |rest|) by {
        assert Value(rest) + 1 <= Pow2(32 * |rest|);
        assert WordBase * (Value(rest) + 1) <= WordBase * Pow2(32 * |rest|);
      }
      assert Limbs(v, |ls|) == [ls[0]] + rest;
    }
  }

  /** `a[0], b[0], a[1], b[1], ...`. */
  function Interleave(a: seq<nat>, b: seq<nat>): (r: seq<nat>)
    requires |a| == |b|
    ensures |r| == 2 * |a|
  {
    if a == [] then [] else [a[0], b[0]] + Interleave(a[1..], b[1..])
  }

  /** Position 2i holds a[i] and position 2i+1 holds b[i]. */
  lemma {:induction false} InterleaveAt(a: seq<nat>, b: seq<nat>, i: nat)
    requires |a| == |b| && i < |a|
    ensures Interleave(a, b)[2 * i] == a[i] && Interleave(a, b)[2 * i + 1] == b[i]
  {
    if i > 0 {
      InterleaveAt(a[1..], b[1..], i - 1);
      var tail := Interleave(a[1..], b[1..]);
      assert Interleave(a, b) == [a[0], b[0]] + tail;
      assert Interleave(a, b)[2 * i] == tail[2 * (i - 1)];
      assert Interleave(a, b)[2 * i + 1] == tail[2 * (i - 1) + 1];
    }
  }

  /** Interleaving words gives words. */
  lemma InterleaveBelow(a: seq<nat>, b: seq<nat>, bound: nat)
    requires |a| == |b|
    requires forall i :: 0 <= i < |a| ==> a[i] < bound && b[i] < bound
    ensures forall i :: 0 <= i < 2 * |a| ==> Interleave(a, b)[i] < bound
  {
    var r := Interleave(a, b);
    forall i | 0 <= i < 2 * |a|
      ensures r[i] < bound
    {
      var j := i / 2;
      InterleaveAt(a, b, j);
      if i % 2 == 0 {
        assert r[i] == r[2 * j] == a[j];
      } else {
        assert r[i] == r[2 * j + 1] == b[j];
      }
    }
  }

  /** The entries at even positions. */
  function Evens(s: seq<nat>): seq<nat>
  {
    if |s| < 2 then [] else [s[0]] + Evens(s[2..])
  }

  /** The entries at odd positions. */
  function Odds(s: seq<nat>): seq<nat>
  {
    if |s| < 2 then [] else [s[1]] + Odds(s[2..])
  }

  /** Interleaving loses nothing: the two arrays are recovered from it. */
  lemma {:induction false} Deinterleave(a: seq<nat>, b: seq<nat>)
    requires |a| == |b|
    ensures Evens(Interleave(a, b)) == a && Odds(Interleave(a, b)) == b
  {
    if a != [] {
      Deinterleave(a[1..], b[1..]);
      var r := Interleave(a, b);
      assert r[2..] == Interleave(a[1..], b[1..]);
    }
  }
}
