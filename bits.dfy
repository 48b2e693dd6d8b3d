/**
 * JavaScript's bitwise operators `&`, `|` and `<<` on the non-negative
 * values the colour extractor uses.  JavaScript converts both operands to
 * 32-bit signed integers first; every value here stays far below 2^31, so
 * that conversion is the identity and the operators are modelled on
 * naturals, bit by bit from the least significant end.
 */
module Bits {

  /** 2^n */
  function Pow2(n: nat): (p: nat)
    ensures p >= 1
  {
    if n == 0 then 1 else 2 * Pow2(n - 1)
  }

  /** `a & b`: a bit of the result is set when it is set in both operands. */
  function And(a: nat, b: nat): (r: nat)
    ensures r <= a && r <= b
  {
    if a == 0 || b == 0 then 0
    else 2 * And(a / 2, b / 2) + (if a % 2 == 1 && b % 2 == 1 then 1 else 0)
  }

  /** `a | b`: a bit of the result is set when it is set in either operand. */
  function Or(a: nat, b: nat): (r: nat)
    ensures a <= r && b <= r && r <= a + b
  {
    if a == 0 then b
    else if b == 0 then a
    else 2 * Or(a / 2, b / 2) + (if a % 2 == 1 || b % 2 == 1 then 1 else 0)
  }

  /** `a << s`: the bits of `a` moved up by `s` places, one place at a time. */
  function ShiftLeft(a: nat, s: nat): (r: nat)
    ensures r == a * Pow2(s)
  {
    if s == 0 then a else 2 * ShiftLeft(a, s - 1)
  }

  /** Masking with s low one-bits keeps a value that already fits in s bits. */
  lemma {:induction false} AndLowOnes(x: nat, s: nat)
    requires x < Pow2(s)
    ensures And(x, Pow2(s) - 1) == x
  {
    if s > 0 && x > 0 {
      assert Pow2(s) - 1 > 0;
      assert (Pow2(s) - 1) / 2 == Pow2(s - 1) - 1 && (Pow2(s) - 1) % 2 == 1;
      AndLowOnes(x / 2, s - 1);
    }
  }

  /** An even mask clears bit 0 and masks the remaining bits with half the mask. */
  lemma AndEvenMask(x: nat, m: nat)
    ensures And(x, 2 * m) == 2 * And(x / 2, m)
  {
    if x != 0 && m != 0 {
      assert (2 * m) / 2 == m && (2 * m) % 2 == 0;
    }
  }

  /** `|` of a value shifted up by s with one below 2^s adds them: no bit is shared. */
  lemma {:induction false} OrDisjoint(a: nat, b: nat, s: nat)
    requires b < Pow2(s)
    ensures Or(a * Pow2(s), b) == a * Pow2(s) + b
  {
    if s > 0 {
      var p := Pow2(s - 1);
      var hi := a * Pow2(s);
      assert hi == 2 * (a * p);
      if hi != 0 && b != 0 {
        assert hi / 2 == a * p && hi % 2 == 0;
        OrDisjoint(a, b / 2, s - 1);
      }
    }
  }
}
