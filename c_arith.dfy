/**
  Integer division as C99 defines it for signed operands.

  Dafny's `/` and `%` on `int` are Euclidean; C's `/` truncates toward zero
  and C's `%` takes the sign of the dividend. The clock code divides signed
  `tv_nsec`, `tv_usec` and `nni_duration` values, so the model spells the C
  operators out here and proves that they coincide with Dafny's on
  non-negative dividends.
 */
module CArith {

  /** C's `a / b` for a positive divisor: the quotient truncated toward zero. */
  function Quot(a: int, b: int): (q: int)
    requires b > 0
    ensures a >= 0 ==> 0 <= q * b <= a < q * b + b
    ensures a < 0 ==> q * b - b < a <= q * b <= 0
  {
    var n := if a >= 0 then a else -a;
    var q := n / b;
    FloorBounds(n, b);
    if a >= 0 then q else NegMul(q, b); -q
  }

  /** The Euclidean quotient of a non-negative dividend brackets it. */
  lemma FloorBounds(n: int, b: int)
    requires n >= 0 && b > 0
    ensures 0 <= (n / b) * b <= n < (n / b) * b + b
  {
    MulIsMonotone(0, n / b, b);
  }

  /** Negation commutes with multiplication. */
  lemma NegMul(q: int, b: int)
    ensures (-q) * b == -(q * b)
  {
  }

  /** C's `a % b` for a positive divisor: the remainder that goes with `Quot`. */
  function Rem(a: int, b: int): (r: int)
    requires b > 0
    ensures Quot(a, b) * b + r == a
    ensures a >= 0 ==> 0 <= r < b
    ensures a < 0 ==> -b < r <= 0
  {
    if a >= 0 then a % b else -((-a) % b)
  }

  /** Multiplying by a non-negative factor keeps order. */
  lemma MulIsMonotone(x: int, y: int, b: int)
    requires x <= y
    requires b >= 0
    ensures x * b <= y * b
  {
    assert y * b - x * b == (y - x) * b;
  }

  /** Euclidean division by a positive divisor keeps order. */
  lemma DivIsMonotone(a: int, a': int, b: int)
    requires a <= a'
    requires b > 0
    ensures a / b <= a' / b
  {
    var q, q' := a / b, a' / b;
    assert q * b <= a && a' < q' * b + b;
    if q' < q {
      MulIsMonotone(q' + 1, q, b);
    }
  }
}
