/**
 * Integer facts behind the scripts' arithmetic: powers of two, the bit tests
 * that `& 1` and `>>= 1` perform, and Python's floor division `//`.
 *
 * Dafny's `/` and `%` are Euclidean. For a positive divisor, which is the only
 * kind the scripts use, Euclidean division coincides with Python's `//` and
 * `%` on every integer, negative ones included.
 */
module Arith {

  function Pow2(k: nat): (p: nat)
    ensures p >= 1
  {
    if k == 0 then 1 else 2 * Pow2(k - 1)
  }

  /** A positive multiple of d is at least d. */
  lemma MulAtLeast(x: int, d: int)
    requires x >= 1 && d > 0
    ensures x * d >= d
  {
    assert x * d == (x - 1) * d + d;
  }

  /** A quotient and a remainder in range determine Euclidean division. */
  lemma DivModUnique(a: int, d: int, q: int, r: int)
    requires d > 0 && a == q * d + r && 0 <= r < d
    ensures a / d == q && a % d == r
  {
    var q', r' := a / d, a % d;
    assert q * d + r == q' * d + r';
    assert (q - q') * d == r' - r by {
      assert (q - q') * d == q * d - q' * d;
    }
    if q > q' {
      MulAtLeast(q - q', d);
    } else if q < q' {
      MulAtLeast(q' - q, d);
    }
  }

  /** Shifting right by one more bit is dividing by one more factor of two. */
  lemma DivPow2Step(a: int, k: nat)
    ensures a / Pow2(k) / 2 == a / Pow2(k + 1)
  {
    var p := Pow2(k);
    var q := a / p;
    assert a == q * p + a % p;
    assert q == (q / 2) * 2 + q % 2;
    assert a == (q / 2) * (2 * p) + ((q % 2) * p + a % p);
    assert 0 <= (q % 2) * p <= p;
    DivModUnique(a, 2 * p, q / 2, (q % 2) * p + a % p);
  }

  /** The low k + 1 bits of a are its low k bits plus bit k. */
  lemma ModPow2Step(a: int, k: nat)
    ensures a % Pow2(k + 1) == a % Pow2(k) + Pow2(k) * (a / Pow2(k) % 2)
  {
    var p := Pow2(k);
    var q := a / p;
    assert a == q * p + a % p;
    assert q == (q / 2) * 2 + q % 2;
    assert a == (q / 2) * (2 * p) + ((q % 2) * p + a % p);
    assert 0 <= (q % 2) * p <= p;
    DivModUnique(a, 2 * p, q / 2, (q % 2) * p + a % p);
  }

  /** The number of set bits of a non-negative integer. */
  function PopCount(n: nat): nat
  {
    if n == 0 then 0 else n % 2 + PopCount(n / 2)
  }

  /** Setting bit k above a number of at most k bits adds one to its bit count. */
  lemma {:induction false} PopCountTopBit(a: nat, b: nat, k: nat)
    requires a < Pow2(k) && b <= 1
    ensures PopCount(a + Pow2(k) * b) == PopCount(a) + b
  {
    if k == 0 {
      assert a == 0;
    } else {
      var n := a + Pow2(k) * b;
      assert Pow2(k) == 2 * Pow2(k - 1);
      assert n == (a / 2 + Pow2(k - 1) * b) * 2 + a % 2;
      DivModUnique(n, 2, a / 2 + Pow2(k - 1) * b, a % 2);
      PopCountTopBit(a / 2, b, k - 1);
      if n != 0 && a == 0 {
        assert PopCount(a) == 0;
      }
    }
  }

  /** Floor division never decreases when its dividend grows. */
  lemma DivMonotone(a: int, b: int, d: int)
    requires d > 0 && a <= b
    ensures a / d <= b / d
  {
    var qa, qb := a / d, b / d;
    assert a == qa * d + a % d;
    assert b == qb * d + b % d;
    if qa > qb {
      MulAtLeast(qa - qb, d);
    }
  }

  /** Dividing a sum loses at most one unit against dividing its parts. */
  lemma DivSum(a: int, b: int, d: int)
    requires d > 0
    ensures a / d + b / d <= (a + b) / d <= a / d + b / d + 1
  {
    var r := a % d + b % d;
    assert a + b == (a / d + b / d) * d + r;
    if r < d {
      DivModUnique(a + b, d, a / d + b / d, r);
    } else {
      DivModUnique(a + b, d, a / d + b / d + 1, r - d);
    }
  }

  /** Pow2 never decreases. */
  lemma {:induction false} PowGrows(j: nat, k: nat)
    requires j <= k
    ensures Pow2(j) <= Pow2(k)
    decreases k
  {
    if j < k {
      PowGrows(j, k - 1);
    }
  }

  /** Multiplying by the same natural keeps the order. */
  lemma MulMonotone(a: nat, b: nat, k: nat)
    requires a <= b
    ensures a * k <= b * k
  {
    assert b * k == a * k + (b - a) * k;
  }
}
