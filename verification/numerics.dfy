/**
 Exact numeric helpers shared by the formatter and the parser: powers of ten,
 absolute values and the HALF_UP rounding rule that `BigDecimal.setScale`
 applies (round to nearest, ties away from zero).
 */
module Numerics {

  /** 10^k as a natural number. */
  function Pow10(k: nat): (p: nat)
    ensures p >= 1
    ensures k > 0 ==> p >= 10
  {
    if k == 0 then 1 else 10 * Pow10(k - 1)
  }

  lemma {:induction false} Pow10Add(a: nat, b: nat)
    ensures Pow10(a + b) == Pow10(a) * Pow10(b)
    decreases b
  {
    if b > 0 {
      Pow10Add(a, b - 1);
      assert Pow10(a + b) == 10 * Pow10(a + b - 1);
    }
  }

  lemma {:induction false} Pow10Monotone(a: nat, b: nat)
    requires a <= b
    ensures Pow10(a) <= Pow10(b)
    decreases b - a
  {
    if a < b {
      Pow10Monotone(a, b - 1);
    }
  }

  /** 10^e for any integer exponent, as a real. */
  function Pow10Real(e: int): (r: real)
    ensures r > 0.0
    ensures e >= 0 ==> r == Pow10(e) as real
  {
    if e >= 0 then Pow10(e) as real else 1.0 / Pow10(-e) as real
  }

  function Abs(x: int): (r: nat)
    ensures r == x || r == -x
  {
    if x < 0 then -x else x
  }

  function AbsReal(x: real): (r: real)
    ensures r >= 0.0
    ensures r == x || r == -x
  {
    if x < 0.0 then -x else x
  }

  /**
   The integer nearest to `y`, ties rounded away from zero (HALF_UP).
   The two ensures pin the result down uniquely (see HalfUpUnique).
   */
  function HalfUp(y: real): (r: int)
    ensures y >= 0.0 ==> r as real - 0.5 <= y < r as real + 0.5
    ensures y < 0.0 ==> r as real - 0.5 < y <= r as real + 0.5
  {
    if y >= 0.0 then (y + 0.5).Floor else -((-y + 0.5).Floor)
  }

  /** HALF_UP rounding is the only integer within the rounding window. */
  predicate IsHalfUpOf(y: real, r: int) {
    if y >= 0.0 then r as real - 0.5 <= y < r as real + 0.5
    else r as real - 0.5 < y <= r as real + 0.5
  }

  lemma HalfUpUnique(y: real, r: int)
    requires IsHalfUpOf(y, r)
    ensures r == HalfUp(y)
  {
  }

  /** HALF_UP rounding is symmetric about zero. */
  lemma HalfUpSign(y: real)
    ensures HalfUp(-y) == -HalfUp(y)
  {
    if y != 0.0 {
      HalfUpUnique(-y, -HalfUp(y));
    }
  }

  /** Rounding an integer leaves it alone. */
  lemma HalfUpOfInteger(n: int)
    ensures HalfUp(n as real) == n
  {
    HalfUpUnique(n as real, n);
  }
}
