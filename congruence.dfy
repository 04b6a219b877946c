/**
  Divisibility and congruence modulo an integer, with the algebra the curve
  arithmetic needs. `Divides(d, n)` and `Congruent(u, v, m)` are total: a
  zero divisor divides only zero, and congruence modulo zero is equality.
 */
module Congruence {
  import opened RustInt

  /** `a · b`, named so that the quantifier in `Divides` has a trigger. */
  function Mul(a: int, b: int): int {
    a * b
  }

  /** `d` divides `n`: `n == d · k` for some integer `k`. */
  ghost predicate Divides(d: int, n: int) {
    exists k :: n == Mul(d, k)
  }

  /** `u ≡ v (mod m)`; modulo 0 this is equality. */
  ghost predicate Congruent(u: int, v: int, m: int) {
    Divides(m, u - v)
  }

  /** The `k` with `n == d * k` that a divisor `d` of `n` comes with. */
  ghost function Cofactor(d: int, n: int): (k: int)
    requires Divides(d, n)
    ensures n == d * k
  {
    var k :| n == Mul(d, k); k
  }

  lemma DividesIntro(d: int, n: int, k: int)
    requires n == d * k
    ensures Divides(d, n)
  {
    assert n == Mul(d, k);
  }

  /** A common divisor of `u` and `v` divides every integer combination of them. */
  lemma DividesLinear(d: int, u: int, v: int, i: int, j: int)
    requires Divides(d, u) && Divides(d, v)
    ensures Divides(d, i * u + j * v)
  {
    var ku, kv := Cofactor(d, u), Cofactor(d, v);
    calc {
      i * u + j * v;
      i * (d * ku) + j * (d * kv);
      { assert i * (d * ku) == d * (i * ku) && j * (d * kv) == d * (j * kv); }
      d * (i * ku + j * kv);
    }
    DividesIntro(d, i * u + j * v, i * ku + j * kv);
  }

  /** The only non-negative divisor of 1 is 1. */
  lemma DividesOne(g: int)
    requires g >= 0 && Divides(g, 1)
    ensures g == 1
  {
    var k := Cofactor(g, 1);
    if k >= 1 {
      assert g * k >= g;
    }
  }

  lemma CongruentIntro(u: int, v: int, m: int, k: int)
    requires u - v == k * m
    ensures Congruent(u, v, m)
  {
    DividesIntro(m, u - v, k);
  }

  lemma CongruentRefl(u: int, m: int)
    ensures Congruent(u, u, m)
  {
    CongruentIntro(u, u, m, 0);
  }

  lemma CongruentSymmetric(u: int, v: int, m: int)
    requires Congruent(u, v, m)
    ensures Congruent(v, u, m)
  {
    var k := Cofactor(m, u - v);
    CongruentIntro(v, u, m, -k);
  }

  lemma CongruentTransitive(u: int, v: int, w: int, m: int)
    requires Congruent(u, v, m) && Congruent(v, w, m)
    ensures Congruent(u, w, m)
  {
    var k1, k2 := Cofactor(m, u - v), Cofactor(m, v - w);
    CongruentIntro(u, w, m, k1 + k2);
  }

  lemma CongruentNeg(u: int, v: int, m: int)
    requires Congruent(u, v, m)
    ensures Congruent(-u, -v, m)
  {
    var k := Cofactor(m, u - v);
    CongruentIntro(-u, -v, m, -k);
  }

  /** Rust's remainder is congruent to its dividend. */
  lemma TRemCongruent(a: int, b: int)
    requires b != 0
    ensures Congruent(TRem(a, b), a, b)
  {
    CongruentIntro(TRem(a, b), a, b, -TDiv(a, b));
  }

  /** Two values congruent modulo `m` and both in `[0, m)` are equal. */
  lemma CongruentCanonical(u: int, v: int, m: int)
    requires m > 0 && 0 <= u < m && 0 <= v < m && Congruent(u, v, m)
    ensures u == v
  {
    var k := Cofactor(m, u - v);
  }

  /** `(x % m + m) % m` is congruent to `x`. */
  lemma ReduceCongruent(x: int, m: int)
    requires m != 0
    ensures Congruent(TRem(TRem(x, m) + m, m), x, m)
  {
    var t := TRem(x, m);
    ShiftCongruent(x, t, m, TDiv(x, m), TRem(t + m, m), TDiv(t + m, m));
  }

  lemma ShiftCongruent(x: int, t: int, m: int, q1: int, r: int, q2: int)
    requires x == q1 * m + t && t + m == q2 * m + r
    ensures Congruent(r, x, m)
  {
    assert r - x == (1 - q2 - q1) * m;
    CongruentIntro(r, x, m, 1 - q2 - q1);
  }

  /** Modulo a positive `m`, `(x % m + m) % m` lies in `[0, m)`. */
  lemma ReduceRange(x: int, m: int)
    requires m > 0
    ensures 0 <= TRem(TRem(x, m) + m, m) < m
  {
  }

  /**
    Two congruent values that are both small and not of opposite signs are
    equal: their difference is a multiple of `m` smaller than `m`.
   */
  lemma CongruentSameSign(u: int, w: int, m: int)
    requires Congruent(u, w, m) && Abs(u) < Abs(m) && Abs(w) < Abs(m)
    requires (u >= 0 && w >= 0) || (u <= 0 && w <= 0)
    ensures u == w
  {
    var k := Cofactor(m, u - w);
    if k != 0 {
      MulNonZero(m, k);
      assert false;
    }
  }

  /** A non-zero multiple of `m` is at least as large as `m`. */
  lemma MulNonZero(m: int, k: int)
    requires k != 0
    ensures Abs(m * k) >= Abs(m)
  {
    var a: int, b: int := Abs(m), Abs(k);
    assert a * (b - 1) >= 0;
    assert a * b == a + a * (b - 1);
    if m < 0 && k < 0 {
      assert m * k == a * b;
    } else if m < 0 {
      assert m * k == -(a * b);
    } else if k < 0 {
      assert m * k == -(a * b);
    } else {
      assert m * k == a * b;
    }
  }
}
