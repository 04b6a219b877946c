/**
  Rust's integer division and remainder.

  Rust's `/` and `%` on `i64` and on `BigInt` truncate toward zero: the
  quotient is rounded toward zero and the remainder takes the sign of the
  dividend. Dafny's `/` and `%` are Euclidean instead (the remainder is never
  negative), so every `/` and `%` of the source is written with `TDiv` and
  `TRem` below. Both are partial exactly where Rust panics: a zero divisor.
  The overflow of `i64::MIN / -1` is not modelled (integers are unbounded).
 */
module RustInt {

  function Abs(x: int): (r: nat)
    ensures r == x || r == -x
  {
    if x < 0 then -x else x
  }

  /** Rust's `a / b`: the quotient rounded toward zero. */
  function TDiv(a: int, b: int): int
    requires b != 0
  {
    if (a < 0) == (b < 0) then Abs(a) / Abs(b) else -(Abs(a) / Abs(b))
  }

  /**
    `TDiv` truncates: its magnitude is the largest `n` with `n·|b| <= |a|`,
    and it is negative only when exactly one operand is.
   */
  lemma TDivTruncates(a: int, b: int)
    requires b != 0
    ensures var q := TDiv(a, b);
      && Abs(q) * Abs(b) <= Abs(a) < (Abs(q) + 1) * Abs(b)
      && (q > 0 ==> (a < 0) == (b < 0))
      && (q < 0 ==> (a < 0) != (b < 0))
  {
    var n, d := Abs(a), Abs(b);
    var k := n / d;
    assert n == k * d + n % d;
    assert (k + 1) * d == k * d + d;
  }

  /** Rust's `a % b`: the remainder that goes with `TDiv`, signed like `a`. */
  function TRem(a: int, b: int): (r: int)
    requires b != 0
    ensures a == TDiv(a, b) * b + r
    ensures Abs(r) < Abs(b)
    ensures a >= 0 ==> 0 <= r
    ensures a <= 0 ==> r <= 0
  {
    if a < 0 then -((-a) % Abs(b)) else a % Abs(b)
  }

  /** A dividend smaller than the divisor in magnitude is its own remainder. */
  lemma TRemSmall(a: int, b: int)
    requires b != 0 && Abs(a) < Abs(b)
    ensures TRem(a, b) == a
  {
    var d := Abs(b);
    if a < 0 {
      SmallDividend(-a, d);
    } else {
      SmallDividend(a, d);
    }
  }

  /** Euclidean division of `n` by a larger `d` leaves `n` whole. */
  lemma SmallDividend(n: int, d: int)
    requires 0 <= n < d
    ensures n / d == 0 && n % d == n
  {
    var q := n / d;
    assert n == q * d + n % d;
    if q >= 1 {
      assert false;
    } else if q <= -1 {
      assert false;
    }
  }
}
